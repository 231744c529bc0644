/** Following the symbolic links of an item's directory (resolveTrashSource and resolveTrashDir, vfs/trash_xdg.go)
    against pathname resolution as section 4.13 of POSIX.1-2017 Base Definitions describes it. */
module PathResolve {
  import opened Base

  /** The names from the root down to an object. */
  type Path = seq<string>

  datatype Node = Directory | File | Link(target: string)

  /** What is at each path that leads through no link; the root is always a directory. */
  type Tree = map<Path, Node>

  datatype Failure = Missing | TooManyLinks | NotADirectory | EmptyLink

  /** maxTrashSymlinkHops */
  const MAX_HOPS: nat := 40

  /** The names of a path text, its first slash left out. */
  function Parts(text: string): (parts: seq<string>)
    ensures |parts| >= 1
  {
    Split(if text != "" && text[0] == '/' then text[1..] else text, '/')
  }

  predicate IsAbsolute(text: string) { text != "" && text[0] == '/' }

  function Parent(p: Path): Path {
    if p == [] then [] else p[..|p| - 1]
  }

  predicate IsDirectory(tree: Tree, p: Path) {
    p == [] || (p in tree && tree[p] == Directory)
  }

  /** No part of the path is a link. */
  predicate IsReal(tree: Tree, p: Path) {
    forall k :: 1 <= k <= |p| ==> p[..k] in tree && !tree[p[..k]].Link?
  }

  /** Where a step leads: to a place, or into a link there. */
  datatype Step = Place(path: Path) | Into(target: string) | Nowhere

  function StepTo(tree: Tree, at: Path, part: string): Step {
    if part == "" || part == "." then Place(at)
    else if part == ".." then Place(Parent(at))
    else
      var next := at + [part];
      if next !in tree then Nowhere
      else if tree[next].Link? then Into(tree[next].target)
      else Place(next)
  }

  lemma StepReal(tree: Tree, at: Path, part: string)
    requires IsReal(tree, at) && StepTo(tree, at, part).Place?
    ensures IsReal(tree, StepTo(tree, at, part).path)
  {
    var p := StepTo(tree, at, part).path;
    forall k | 1 <= k <= |p|
      ensures p[..k] in tree && !tree[p[..k]].Link?
    {
      if k <= |at| {
        assert p[..k] == at[..k];
      } else {
        assert p[..k] == p;
      }
    }
  }

  // ----- reference: each link is resolved as a path of its own

  datatype Resolved = Resolved(path: Path, hops: nat)

  /** Resolution from a place with some links left to follow. By the standard, whatever something follows must be a
      directory, and a link must not be empty; lenient resolution does without these two. */
  function Resolve(tree: Tree, strict: bool, at: Path, parts: seq<string>, hops: nat): (r: Result<Resolved, Failure>)
    ensures r.Ok? ==> r.value.hops <= hops
    decreases hops, |parts|
  {
    if parts == [] then Ok(Resolved(at, hops))
    else if strict && !IsDirectory(tree, at) then Err(NotADirectory)
    else
      match StepTo(tree, at, parts[0])
      case Place(next) => Resolve(tree, strict, next, parts[1..], hops)
      case Nowhere => Err(Missing)
      case Into(target) =>
        if hops == 0 then Err(TooManyLinks)
        else if strict && target == "" then Err(EmptyLink)
        else
          match Resolve(tree, strict, if IsAbsolute(target) then [] else at, Parts(target), hops - 1)
          case Err(e) => Err(e)
          case Ok(there) => Resolve(tree, strict, there.path, parts[1..], there.hops)
  }

  // ----- the code: the link's names are put before the remaining ones

  /** What the loop makes of the place it is at and the names it still has. */
  function Follow(tree: Tree, at: Path, rest: seq<string>, hops: nat): Result<Path, Failure>
    decreases hops, |rest|
  {
    if rest == [] then Ok(at)
    else
      match StepTo(tree, at, rest[0])
      case Place(next) => Follow(tree, next, rest[1..], hops)
      case Nowhere => Err(Missing)
      case Into(target) =>
        if hops == 0 then Err(TooManyLinks)
        else Follow(tree, if IsAbsolute(target) then [] else at, Parts(target) + rest[1..], hops - 1)
  }

  method ResolveTrashDir(tree: Tree, dir: string) returns (r: Result<Path, Failure>)
    ensures r == Follow(tree, [], Parts(dir), 40)
    ensures r.Ok? ==> IsReal(tree, r.value)
  {
    var resolved: Path := [];
    var rest := Parts(dir);
    var hops := 0;
    while rest != []
      invariant hops <= MAX_HOPS && IsReal(tree, resolved)
      invariant Follow(tree, resolved, rest, MAX_HOPS - hops) == Follow(tree, [], Parts(dir), MAX_HOPS)
      decreases MAX_HOPS - hops, |rest|
    {
      var part := rest[0];
      rest := rest[1..];
      if part == "" || part == "." {
        continue;
      }
      if part == ".." {
        StepReal(tree, resolved, part);
        resolved := Parent(resolved);
        continue;
      }
      var next := resolved + [part];
      if next !in tree {
        return Err(Missing);
      }
      if !tree[next].Link? {
        StepReal(tree, resolved, part);
        resolved := next;
        continue;
      }
      hops := hops + 1;
      if hops > MAX_HOPS {
        return Err(TooManyLinks);
      }
      var target := tree[next].target;
      if IsAbsolute(target) {
        resolved := [];
      }
      rest := Parts(target) + rest;
    }
    r := Ok(resolved);
  }

  /** What is left to do once some names are resolved. */
  function GoOn(tree: Tree, r: Result<Resolved, Failure>, rest: seq<string>): Result<Path, Failure> {
    if r.Err? then Err(r.error) else Follow(tree, r.value.path, rest, r.value.hops)
  }

  /** The loop and the nested resolution agree in front of any remaining names. */
  lemma {:induction false} FollowResolves(tree: Tree, at: Path, parts: seq<string>, rest: seq<string>, hops: nat)
    ensures Follow(tree, at, parts + rest, hops) == GoOn(tree, Resolve(tree, false, at, parts, hops), rest)
    decreases hops, |parts|
  {
    if parts == [] {
      assert parts + rest == rest;
    } else {
      assert (parts + rest)[0] == parts[0] && (parts + rest)[1..] == parts[1..] + rest;
      match StepTo(tree, at, parts[0])
      case Place(next) => FollowResolves(tree, next, parts[1..], rest, hops);
      case Nowhere =>
      case Into(target) =>
        if hops > 0 {
          LinkResolves(tree, if IsAbsolute(target) then [] else at, Parts(target), parts[1..], rest, hops - 1);
        }
    }
  }

  /** First the names of a link, then those behind it. */
  lemma {:induction false} LinkResolves(tree: Tree, at: Path, link: seq<string>, parts: seq<string>,
                                        rest: seq<string>, hops: nat)
    ensures var there := Resolve(tree, false, at, link, hops);
            Follow(tree, at, link + (parts + rest), hops)
            == if there.Err? then Err(there.error)
               else GoOn(tree, Resolve(tree, false, there.value.path, parts, there.value.hops), rest)
    decreases hops, |link| + |parts| + 1
  {
    FollowResolves(tree, at, link, parts + rest, hops);
    match Resolve(tree, false, at, link, hops)
    case Err(_) =>
    case Ok(there) => FollowResolves(tree, there.path, parts, rest, there.hops);
  }

  /** The loop is resolution without the two checks of the standard, in its results and in its errors. */
  lemma FollowIsLenient(tree: Tree, parts: seq<string>)
    ensures var there := Resolve(tree, false, [], parts, MAX_HOPS);
            Follow(tree, [], parts, MAX_HOPS) == if there.Err? then Err(there.error) else Ok(there.value.path)
  {
    assert parts + [] == parts;
    FollowResolves(tree, [], parts, [], MAX_HOPS);
  }

  /** Apart from the two checks, strict and lenient resolution are the same. */
  lemma {:induction false} StrictOrLenient(tree: Tree, at: Path, parts: seq<string>, hops: nat)
    ensures var strict := Resolve(tree, true, at, parts, hops);
            strict == Resolve(tree, false, at, parts, hops) || strict in {Err(NotADirectory), Err(EmptyLink)}
    decreases hops, |parts|
  {
    if parts != [] {
      match StepTo(tree, at, parts[0])
      case Place(next) => StrictOrLenient(tree, next, parts[1..], hops);
      case Nowhere =>
      case Into(target) =>
        if hops > 0 {
          StrictOrLenient(tree, if IsAbsolute(target) then [] else at, Parts(target), hops - 1);
          match Resolve(tree, true, if IsAbsolute(target) then [] else at, Parts(target), hops - 1)
          case Err(_) =>
          case Ok(there) => StrictOrLenient(tree, there.path, parts[1..], there.hops);
        }
    }
  }

  /** Where the standard's resolution finds an object within the limit of links, the code finds the same one; where it
      finds nothing or too many links, so does the code. */
  lemma FollowMeetsStandard(tree: Tree, parts: seq<string>)
    ensures var there := Resolve(tree, true, [], parts, MAX_HOPS);
            && (there.Ok? ==> Follow(tree, [], parts, MAX_HOPS) == Ok(there.value.path))
            && (there.Err? && there.error in {Missing, TooManyLinks} ==>
                  Follow(tree, [], parts, MAX_HOPS) == Err(there.error))
  {
    FollowIsLenient(tree, parts);
    StrictOrLenient(tree, [], parts, MAX_HOPS);
  }

  // ----- the item itself

  /** A cleaned absolute path: names that are neither empty nor dots. */
  predicate IsClean(p: Path) {
    forall i :: 0 <= i < |p| ==> p[i] !in ["", ".", ".."] && '/' !in p[i]
  }

  function Text(p: Path): string {
    "/" + Join(p, '/')
  }

  lemma PartsOfText(p: Path)
    requires IsClean(p)
    ensures Parts(Text(p)) == if p == [] then [""] else p
  {
    assert Text(p)[1..] == Join(p, '/');
    if p != [] {
      SplitJoin(p, '/');
    }
  }

  /** resolveTrashSource: the directory of the item is resolved, its own name is kept as it is. */
  method ResolveTrashSource(tree: Tree, source: Path) returns (r: Result<Path, Failure>)
    requires IsClean(source)
    ensures source == [] ==> r == Ok(source)
    ensures source != [] ==>
              var dir := Follow(tree, [], Parent(source), MAX_HOPS);
              && r == (if dir.Err? then dir else Ok(dir.value + [source[|source| - 1]]))
              && (dir.Ok? ==> IsReal(tree, dir.value))
  {
    if source == [] {
      return Ok(source);
    }
    PartsOfText(Parent(source));
    var dir := ResolveTrashDir(tree, Text(Parent(source)));
    if dir.Err? {
      return Err(dir.error);
    }
    if Parent(source) == [] {
      assert [""][1..] == [];
      assert Follow(tree, [], [""], MAX_HOPS) == Follow(tree, [], [], MAX_HOPS);
    }
    r := Ok(dir.value + [source[|source| - 1]]);
  }
}
