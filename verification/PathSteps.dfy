/** Where resolveTrashDir (vfs/trash_xdg.go) leads, said of the tree and the names alone: names that meet no link lead
    to the place their dots leave, and the first link is replaced by its text. */
module PathSteps {
  import opened Base
  import opened PathResolve
  import opened MountRoot

  predicate IsPlain(tree: Tree, p: Path) {
    p == [] || (p in tree && !tree[p].Link?)
  }

  /** All places on the way are there, and none is a link. */
  predicate MeetsNoLink(tree: Tree, parts: seq<string>) {
    forall k :: 0 <= k <= |parts| ==> IsPlain(tree, Cleaned([], parts[..k]))
  }

  predicate MeetsNoLinkFrom(tree: Tree, done: Path, parts: seq<string>) {
    forall k :: 0 <= k <= |parts| ==> IsPlain(tree, Cleaned(done, parts[..k]))
  }

  /** What a link at a place below p is replaced by: its names, from the root or from p on. */
  function Replacement(p: Path, text: string): seq<string> {
    if text != "" && text[0] == '/' then Parts(text) else p + Parts(text)
  }

  lemma {:induction false} CleanedCons(done: Path, part: string, rest: seq<string>)
    ensures Cleaned(done, [part] + rest) == Cleaned(Cleaned(done, [part]), rest)
  {
    assert [part][1..] == [] && ([part] + rest)[1..] == rest;
  }

  lemma {:induction false} NoLinkCons(tree: Tree, done: Path, parts: seq<string>)
    requires MeetsNoLinkFrom(tree, done, parts) && parts != []
    ensures MeetsNoLinkFrom(tree, Cleaned(done, parts[..1]), parts[1..]) && IsPlain(tree, Cleaned(done, parts[..1]))
  {
    var next := Cleaned(done, parts[..1]);
    assert parts[..1][1..] == [];
    forall k | 0 <= k <= |parts[1..]|
      ensures IsPlain(tree, Cleaned(next, parts[1..][..k]))
    {
      CleanedCons(done, parts[0], parts[1..][..k]);
      assert parts[..k + 1] == [parts[0]] + parts[1..][..k] && parts[..1] == [parts[0]];
    }
  }

  lemma OneName(tree: Tree, done: Path, part: string)
    requires IsPlain(tree, Cleaned(done, [part]))
    ensures StepTo(tree, done, part) == Place(Cleaned(done, [part]))
  {
    assert [part][1..] == [];
  }

  /** Names that meet no link are passed one by one. */
  lemma {:induction false} PassedFrom(tree: Tree, done: Path, parts: seq<string>, rest: seq<string>, hops: nat)
    requires MeetsNoLinkFrom(tree, done, parts)
    ensures Follow(tree, done, parts + rest, hops) == Follow(tree, Cleaned(done, parts), rest, hops)
    decreases |parts|
  {
    if parts == [] {
      assert parts + rest == rest;
    } else {
      NoLinkCons(tree, done, parts);
      assert parts[..1] == [parts[0]] && [parts[0]][1..] == [];
      OneName(tree, done, parts[0]);
      assert (parts + rest)[0] == parts[0] && (parts + rest)[1..] == parts[1..] + rest;
      PassedFrom(tree, Cleaned(done, [parts[0]]), parts[1..], rest, hops);
    }
  }

  /** Names that meet no link lead to the place their dots leave. */
  lemma ThroughNoLink(tree: Tree, parts: seq<string>, hops: nat)
    requires MeetsNoLink(tree, parts)
    ensures Follow(tree, [], parts, hops) == Ok(Cleaned([], parts))
  {
    PassedFrom(tree, [], parts, [], hops);
    assert parts + [] == parts;
  }

  // ----- the first name that is missing or a link

  predicate IsName(part: string) { part !in ["", ".", ".."] }

  /** Behind such names a missing one is an error. */
  lemma FirstMissing(tree: Tree, parts: seq<string>, name: string, rest: seq<string>, hops: nat)
    requires MeetsNoLink(tree, parts) && IsName(name) && Cleaned([], parts) + [name] !in tree
    ensures Follow(tree, [], parts + ([name] + rest), hops) == Err(Missing)
  {
    PassedFrom(tree, [], parts, [name] + rest, hops);
  }

  /** The names of a place, all of them plain, lead to it. */
  lemma {:induction false} PlaceNames(tree: Tree, p: Path, n: nat)
    requires n <= |p| && IsReal(tree, p) && forall i :: 0 <= i < |p| ==> IsName(p[i])
    ensures Cleaned(p[..n], p[n..]) == p && MeetsNoLinkFrom(tree, p[..n], p[n..])
    decreases |p| - n
  {
    if n == |p| {
      assert p[..n] == p && p[n..] == [];
    } else {
      PlaceNames(tree, p, n + 1);
      assert p[n..][0] == p[n] && p[n..][1..] == p[n + 1..] && p[..n] + [p[n]] == p[..n + 1];
      forall k | 0 <= k <= |p[n..]|
        ensures IsPlain(tree, Cleaned(p[..n], p[n..][..k]))
      {
        if k > 0 {
          assert p[n..][..k][0] == p[n] && p[n..][..k][1..] == p[n + 1..][..k - 1];
          assert Cleaned(p[..n], p[n..][..k]) == Cleaned(p[..n + 1], p[n + 1..][..k - 1]);
        }
      }
    }
  }

  /** Every place on the way is reached through no link, by plain names. */
  lemma {:induction false} PlacesReal(tree: Tree, done: Path, parts: seq<string>)
    requires MeetsNoLinkFrom(tree, done, parts) && IsReal(tree, done) && forall i :: 0 <= i < |done| ==> IsName(done[i])
    ensures var p := Cleaned(done, parts); IsReal(tree, p) && forall i :: 0 <= i < |p| ==> IsName(p[i])
    decreases |parts|
  {
    if parts != [] {
      NoLinkCons(tree, done, parts);
      var next := Cleaned(done, parts[..1]);
      assert parts[..1] == [parts[0]] && [parts[0]][1..] == [];
      OneName(tree, done, parts[0]);
      StepReal(tree, done, parts[0]);
      PlacesReal(tree, next, parts[1..]);
    }
  }

  /** The first link on the way is replaced by its own names, from the root or from the directory it is in, and by
      nothing else, as long as links are left to follow. */
  lemma FirstLink(tree: Tree, parts: seq<string>, name: string, rest: seq<string>, hops: nat)
    requires MeetsNoLink(tree, parts) && IsName(name)
    requires var q := Cleaned([], parts) + [name]; q in tree && tree[q].Link?
    ensures var p := Cleaned([], parts);
            Follow(tree, [], parts + ([name] + rest), hops)
            == if hops == 0 then Err(TooManyLinks)
               else Follow(tree, [], Replacement(p, tree[p + [name]].target) + rest, hops - 1)
  {
    var p := Cleaned([], parts);
    var text := tree[p + [name]].target;
    PassedFrom(tree, [], parts, [name] + rest, hops);
    assert ([name] + rest)[1..] == rest;
    if hops > 0 && !(text != "" && text[0] == '/') {
      assert IsReal(tree, []);
      PlacesReal(tree, [], parts);
      PlaceNames(tree, p, 0);
      assert p[..0] == [] && p[0..] == p;
      PassedFrom(tree, [], p, Parts(text) + rest, hops - 1);
      Assoc(p, Parts(text), rest);
    }
  }

  /** One of the three is always the case: the names can be taken from the front until all are passed, one is missing,
      or one is a link. */
  lemma {:induction false} OneOfThree(tree: Tree, parts: seq<string>)
    returns (a: seq<string>, name: string, rest: seq<string>)
    ensures MeetsNoLink(tree, parts) || (parts == a + ([name] + rest) && MeetsNoLink(tree, a) && IsName(name)
                                         && !IsPlain(tree, Cleaned([], a) + [name]))
  {
    a, name, rest := FirstStop(tree, [], parts);
    assert MeetsNoLinkFrom(tree, [], a) <==> MeetsNoLink(tree, a);
    assert MeetsNoLinkFrom(tree, [], parts) <==> MeetsNoLink(tree, parts);
  }

  lemma {:induction false} FirstStop(tree: Tree, done: Path, parts: seq<string>)
    returns (a: seq<string>, name: string, rest: seq<string>)
    requires IsReal(tree, done)
    ensures MeetsNoLinkFrom(tree, done, parts)
         || (parts == a + ([name] + rest) && MeetsNoLinkFrom(tree, done, a) && IsName(name)
             && !IsPlain(tree, Cleaned(done, a) + [name]))
    decreases |parts|
  {
    a, name, rest := [], "", [];
    NoNames(tree, done);
    if parts == [] {
      assert parts[..0] == [];
    } else {
      var next := Cleaned(done, [parts[0]]);
      assert [parts[0]][1..] == [] && parts == [parts[0]] + parts[1..];
      if IsPlain(tree, next) {
        OneName(tree, done, parts[0]);
        StepReal(tree, done, parts[0]);
        var b;
        b, name, rest := FirstStop(tree, next, parts[1..]);
        a := [parts[0]] + b;
        NoLinkMore(tree, done, parts[0], parts[1..]);
        NoLinkMore(tree, done, parts[0], b);
        Assoc([parts[0]], b, [name] + rest);
      } else {
        name, rest := parts[0], parts[1..];
        assert a + ([name] + rest) == parts;
        StopIsName(tree, done, name);
      }
    }
  }

  lemma RealIsPlain(tree: Tree, p: Path)
    requires IsReal(tree, p)
    ensures IsPlain(tree, p) && (p != [] ==> IsPlain(tree, p[..|p| - 1]))
  {
    assert p[..|p|] == p;
    if |p| > 1 {
      assert p[..|p| - 1] in tree;
    }
  }

  lemma NoNames(tree: Tree, done: Path)
    requires IsReal(tree, done)
    ensures IsPlain(tree, done) && MeetsNoLinkFrom(tree, done, []) && Cleaned(done, []) == done
  {
    RealIsPlain(tree, done);
    var none: seq<string> := [];
    forall k | 0 <= k <= |none|
      ensures IsPlain(tree, Cleaned(done, none[..k]))
    {
      assert none[..k] == [];
    }
  }

  lemma StopIsName(tree: Tree, done: Path, part: string)
    requires IsReal(tree, done) && !IsPlain(tree, Cleaned(done, [part]))
    ensures IsName(part) && Cleaned(done, [part]) == done + [part]
  {
    RealIsPlain(tree, done);
    assert [part][1..] == [];
  }

  lemma {:induction false} NoLinkMore(tree: Tree, done: Path, part: string, parts: seq<string>)
    requires IsPlain(tree, done)
    ensures MeetsNoLinkFrom(tree, Cleaned(done, [part]), parts) ==> MeetsNoLinkFrom(tree, done, [part] + parts)
  {
    var all := [part] + parts;
    if MeetsNoLinkFrom(tree, Cleaned(done, [part]), parts) {
      forall k | 0 <= k <= |all|
        ensures IsPlain(tree, Cleaned(done, all[..k]))
      {
        if k > 0 {
          CleanedCons(done, part, parts[..k - 1]);
          assert all[..k] == [part] + parts[..k - 1];
        }
      }
    }
  }

  /** A link to a neighbour of its directory: ../name leads to the name beside it. */
  lemma NeighbourLink(tree: Tree, up: Path, dir: string, link: string, name: string)
    requires var d := up + [dir];
             && IsReal(tree, d) && (forall i :: 0 <= i < |d| ==> IsName(d[i])) && IsName(link)
             && d + [link] in tree && tree[d + [link]] == Link("../" + name)
    requires IsName(name) && '/' !in name && up + [name] in tree && !tree[up + [name]].Link?
    ensures Follow(tree, [], up + [dir] + [link], MAX_HOPS) == Ok(up + [name])
  {
    var d := up + [dir];
    var text := "../" + name;
    PlaceNames(tree, d, 0);
    assert d[..0] == [] && d[0..] == d;
    FirstLink(tree, d, link, [], MAX_HOPS);
    assert d + ([link] + []) == d + [link];
    assert text == ".." + ['/'] + name;
    SplitAppend("..", '/', name);
    SplitFree("..", '/');
    SplitFree(name, '/');
    assert Parts(text) == ["..", name];
    UpAndIn(tree, up, dir, name);
    assert d + ["..", name] + [] == d + ["..", name];
  }

  lemma UpAndIn(tree: Tree, up: Path, dir: string, name: string)
    requires IsReal(tree, up + [dir]) && (forall i :: 0 <= i < |up + [dir]| ==> IsName((up + [dir])[i]))
    requires IsName(name) && up + [name] in tree && !tree[up + [name]].Link?
    ensures Follow(tree, [], (up + [dir]) + ["..", name], MAX_HOPS - 1) == Ok(up + [name])
  {
    var d := up + [dir];
    PlaceNames(tree, d, 0);
    assert d[..0] == [] && d[0..] == d && d[..|d| - 1] == up;
    PassedFrom(tree, [], d, ["..", name], MAX_HOPS - 1);
    var dots := ["..", name];
    assert dots[..0] == [] && dots[..1] == [".."] && dots[..2] == dots && dots[1..] == [name] && [name][1..] == [];
    assert [".."][1..] == [];
    assert Cleaned(d, [".."]) == up;
    CleanedCons(d, "..", [name]);
    assert dots == [".."] + [name] && Cleaned(up, [name]) == up + [name];
    assert IsPlain(tree, up) by {
      if up != [] {
        assert d[..|up|] == up;
      }
    }
    assert IsPlain(tree, d) by {
      assert d[..|d|] == d;
    }
    PassedFrom(tree, d, dots, [], MAX_HOPS - 1);
    assert dots + [] == dots;
  }
}
