/** Exactly where resolveTrashDir (vfs/trash_xdg.go) differs from pathname resolution as section 4.13 of POSIX.1-2017
    Base Definitions describes it: at a link that is empty or leads out of something that is no directory. */
module PathAgreement {
  import opened Base
  import opened PathResolve

  /** A file system: clean names, and everything is in a directory. */
  ghost predicate IsTree(tree: Tree) {
    forall p :: p in tree ==> p != [] && IsClean(p) && IsDirectory(tree, Parent(p))
  }

  /** The names that stay where they are or go up. */
  predicate IsDots(part: string) { part == "" || part == "." || part == ".." }

  /** Where a link's names start. */
  function BaseOf(target: string, at: Path): Path {
    if IsAbsolute(target) then [] else at
  }

  /** Behind some of the names there is something that is no directory, and the next name only stays there or goes
      up. */
  ghost predicate LeavesFile(tree: Tree, at: Path, parts: seq<string>, hops: nat) {
    exists k :: 0 <= k < |parts| && LeavesFileAt(tree, at, parts, hops, k)
  }

  predicate LeavesFileAt(tree: Tree, at: Path, parts: seq<string>, hops: nat, k: nat)
    requires k < |parts|
  {
    var there := Resolve(tree, false, at, parts[..k], hops);
    IsDots(parts[k]) && there.Ok? && !IsDirectory(tree, there.value.path)
  }

  /** A link that the code follows to somewhere, although its text is empty or leads out of a non-directory. */
  ghost predicate IsBadLink(tree: Tree, q: Path) {
    q in tree && tree[q].Link?
    && var target, at := tree[q].target, BaseOf(tree[q].target, Parent(q));
    && Resolve(tree, false, at, Parts(target), MAX_HOPS - 1).Ok?
    && (target == "" || LeavesFile(tree, at, Parts(target), MAX_HOPS - 1))
  }

  /** The code finds a directory exactly when the standard does, and the same one. */
  ghost predicate Agrees(tree: Tree, dir: Path) {
    forall d :: Follow(tree, [], dir, MAX_HOPS) == Ok(d)
            <==> Resolve(tree, true, [], dir, MAX_HOPS).Ok? && Resolve(tree, true, [], dir, MAX_HOPS).value.path == d
  }

  // ----- what resolution does not depend on

  /** More links to follow do not change what is found. */
  lemma {:induction false} MoreHops(tree: Tree, strict: bool, at: Path, parts: seq<string>, hops: nat, more: nat)
    requires Resolve(tree, strict, at, parts, hops).Ok?
    ensures var r := Resolve(tree, strict, at, parts, hops).value;
            Resolve(tree, strict, at, parts, hops + more) == Ok(Resolved(r.path, r.hops + more))
    decreases hops, |parts|
  {
    hide StepTo, Parts;
    if parts != [] {
      match StepTo(tree, at, parts[0])
      case Place(next) => MoreHops(tree, strict, next, parts[1..], hops, more);
      case Into(target) =>
        MoreHops(tree, strict, BaseOf(target, at), Parts(target), hops - 1, more);
        var there := Resolve(tree, strict, BaseOf(target, at), Parts(target), hops - 1).value;
        MoreHops(tree, strict, there.path, parts[1..], there.hops, more);
    }
  }

  /** Names are resolved one after the other. */
  lemma {:induction false} ResolveTwo(tree: Tree, strict: bool, at: Path, a: seq<string>, b: seq<string>, hops: nat)
    ensures var there := Resolve(tree, strict, at, a, hops);
            Resolve(tree, strict, at, a + b, hops)
            == if there.Err? then there else Resolve(tree, strict, there.value.path, b, there.value.hops)
    decreases hops, |a|
  {
    if a == [] {
      assert a + b == b;
    } else {
      assert (a + b)[0] == a[0] && (a + b)[1..] == a[1..] + b;
      match StepTo(tree, at, a[0])
      case Place(next) => ResolveTwo(tree, strict, next, a[1..], b, hops);
      case Nowhere =>
      case Into(target) =>
        if hops > 0 {
          var there := Resolve(tree, strict, BaseOf(target, at), Parts(target), hops - 1);
          if there.Ok? {
            ResolveTwo(tree, strict, there.value.path, a[1..], b, there.value.hops);
          }
        }
    }
  }

  /** Names that lead out of a non-directory fail by the standard. */
  lemma LeavingFails(tree: Tree, at: Path, parts: seq<string>, hops: nat)
    requires LeavesFile(tree, at, parts, hops)
    ensures Resolve(tree, true, at, parts, hops).Err?
  {
    var k :| 0 <= k < |parts| && LeavesFileAt(tree, at, parts, hops, k);
    assert parts == parts[..k] + parts[k..];
    ResolveTwo(tree, true, at, parts[..k], parts[k..], hops);
    StrictOrLenient(tree, at, parts[..k], hops);
  }

  // ----- a difference comes from a bad link

  lemma NamedBelow(tree: Tree, at: Path, part: string)
    requires IsTree(tree) && !IsDirectory(tree, at) && !StepTo(tree, at, part).Nowhere?
    ensures IsDots(part)
  {
    assert Parent(at + [part]) == at;
  }

  lemma LeavesCons(tree: Tree, at: Path, parts: seq<string>, hops: nat, next: Path, left: nat)
    requires parts != [] && LeavesFile(tree, next, parts[1..], left)
    requires forall rest: seq<string> ::
               Resolve(tree, false, at, [parts[0]] + rest, hops) == Resolve(tree, false, next, rest, left)
    ensures LeavesFile(tree, at, parts, hops)
  {
    var k :| 0 <= k < |parts[1..]| && LeavesFileAt(tree, next, parts[1..], left, k);
    assert [parts[0]] + parts[1..][..k] == parts[..k + 1];
    assert LeavesFileAt(tree, at, parts, hops, k + 1);
  }

  lemma FirstResolved(tree: Tree, at: Path, part: string, hops: nat, next: Path, left: nat)
    requires Resolve(tree, false, at, [part], hops) == Ok(Resolved(next, left))
    ensures forall rest: seq<string> ::
              Resolve(tree, false, at, [part] + rest, hops) == Resolve(tree, false, next, rest, left)
  {
    forall rest: seq<string>
      ensures Resolve(tree, false, at, [part] + rest, hops) == Resolve(tree, false, next, rest, left)
    {
      ResolveTwo(tree, false, at, [part], rest, hops);
    }
  }

  lemma NoLeaving(tree: Tree, at: Path, parts: seq<string>, hops: nat, next: Path, left: nat)
    requires parts != [] && Resolve(tree, false, at, [parts[0]], hops) == Ok(Resolved(next, left))
    requires !LeavesFile(tree, at, parts, hops)
    ensures !LeavesFile(tree, next, parts[1..], left)
  {
    if LeavesFile(tree, next, parts[1..], left) {
      FirstResolved(tree, at, parts[0], hops, next, left);
      LeavesCons(tree, at, parts, hops, next, left);
    }
  }

  lemma OnePart(tree: Tree, strict: bool, at: Path, part: string, hops: nat)
    requires strict ==> IsDirectory(tree, at)
    ensures var step := StepTo(tree, at, part);
            Resolve(tree, strict, at, [part], hops)
            == if step.Place? then Ok(Resolved(step.path, hops))
               else if step.Nowhere? then Err(Missing)
               else if hops == 0 then Err(TooManyLinks)
               else if strict && step.target == "" then Err(EmptyLink)
               else Resolve(tree, strict, BaseOf(step.target, at), Parts(step.target), hops - 1)
  {
    assert [part][1..] == [];
  }

  /** A link the names lead into is bad if its own names cannot be resolved by the standard and lead out of a
      non-directory or are none. */
  lemma LinkIsBad(tree: Tree, at: Path, part: string, hops: nat)
    requires StepTo(tree, at, part).Into? && IsTree(tree) && hops < MAX_HOPS
    requires var target := StepTo(tree, at, part).target;
             && Resolve(tree, false, BaseOf(target, at), Parts(target), hops).Ok?
             && (target == "" || LeavesFile(tree, BaseOf(target, at), Parts(target), hops))
    ensures IsBadLink(tree, at + [part])
  {
    var target := StepTo(tree, at, part).target;
    var base := BaseOf(target, at);
    var more := MAX_HOPS - 1 - hops;
    assert Parent(at + [part]) == at;
    MoreHops(tree, false, base, Parts(target), hops, more);
    if k :| 0 <= k < |Parts(target)| && LeavesFileAt(tree, base, Parts(target), hops, k) {
      MoreHops(tree, false, base, Parts(target)[..k], hops, more);
      assert LeavesFileAt(tree, base, Parts(target), hops + more, k);
    }
  }

  ghost predicate NoBadLink(tree: Tree) {
    forall q :: q in tree ==> !IsBadLink(tree, q)
  }

  /** Without a bad link, what the code finds without leaving a non-directory the standard finds, too. */
  lemma {:induction false} StrictToo(tree: Tree, at: Path, parts: seq<string>, hops: nat)
    requires IsTree(tree) && NoBadLink(tree) && hops <= MAX_HOPS
    requires Resolve(tree, false, at, parts, hops).Ok? && !LeavesFile(tree, at, parts, hops)
    ensures Resolve(tree, true, at, parts, hops) == Resolve(tree, false, at, parts, hops)
    decreases hops, |parts|
  {
    if parts != [] {
      StandsInDirectory(tree, at, parts, hops);
      assert parts == [parts[0]] + parts[1..];
      ResolveTwo(tree, true, at, [parts[0]], parts[1..], hops);
      ResolveTwo(tree, false, at, [parts[0]], parts[1..], hops);
      PartToo(tree, at, parts[0], hops);
      var there := Resolve(tree, false, at, [parts[0]], hops).value;
      NoLeaving(tree, at, parts, hops, there.path, there.hops);
      StrictToo(tree, there.path, parts[1..], there.hops);
    }
  }

  /** One name, taken from a directory. */
  lemma {:induction false} PartToo(tree: Tree, at: Path, part: string, hops: nat)
    requires IsTree(tree) && NoBadLink(tree) && hops <= MAX_HOPS && IsDirectory(tree, at)
    requires Resolve(tree, false, at, [part], hops).Ok?
    ensures Resolve(tree, true, at, [part], hops) == Resolve(tree, false, at, [part], hops)
    decreases hops, 0
  {
    hide Parts;
    OnePart(tree, true, at, part, hops);
    OnePart(tree, false, at, part, hops);
    if StepTo(tree, at, part).Into? {
      LinkToo(tree, at, part, StepTo(tree, at, part).target, hops - 1);
    }
  }

  lemma OutsideLeaves(tree: Tree, at: Path, parts: seq<string>, hops: nat)
    requires IsTree(tree) && parts != [] && !IsDirectory(tree, at) && !StepTo(tree, at, parts[0]).Nowhere?
    ensures LeavesFile(tree, at, parts, hops)
  {
    NamedBelow(tree, at, parts[0]);
    assert parts[..0] == [];
    assert LeavesFileAt(tree, at, parts, hops, 0);
  }

  lemma StandsInDirectory(tree: Tree, at: Path, parts: seq<string>, hops: nat)
    requires IsTree(tree) && parts != []
    requires Resolve(tree, false, at, parts, hops).Ok? && !LeavesFile(tree, at, parts, hops)
    ensures IsDirectory(tree, at)
  {
    if !IsDirectory(tree, at) {
      OutsideLeaves(tree, at, parts, hops);
    }
  }

  /** A link met on the way: it is not bad, so the standard finds the same behind it. */
  lemma {:induction false} LinkToo(tree: Tree, at: Path, part: string, target: string, hops: nat)
    requires IsTree(tree) && NoBadLink(tree) && hops < MAX_HOPS
    requires StepTo(tree, at, part) == Into(target) && at + [part] in tree
    requires Resolve(tree, false, BaseOf(target, at), Parts(target), hops).Ok?
    ensures target != ""
    ensures Resolve(tree, true, BaseOf(target, at), Parts(target), hops)
         == Resolve(tree, false, BaseOf(target, at), Parts(target), hops)
    decreases hops, |Parts(target)| + 1
  {
    if target == "" || LeavesFile(tree, BaseOf(target, at), Parts(target), hops) {
      LinkIsBad(tree, at, part, hops);
    } else {
      StrictToo(tree, BaseOf(target, at), Parts(target), hops);
    }
  }

  /** Clean names never lead out of anything. */
  lemma CleanStays(tree: Tree, dir: Path, hops: nat)
    requires IsClean(dir)
    ensures !LeavesFile(tree, [], dir, hops)
  {
  }

  // ----- a bad link makes a difference

  lemma CleanStep(tree: Tree, q: Path)
    requires IsTree(tree) && q in tree
    ensures q != [] && q == Parent(q) + [q[|q| - 1]] && IsDirectory(tree, Parent(q))
    ensures StepTo(tree, Parent(q), q[|q| - 1]) == if tree[q].Link? then Into(tree[q].target) else Place(q)
  {
    assert q == Parent(q) + [q[|q| - 1]];
  }

  /** Down to an object of the tree nothing is followed. */
  lemma {:induction false} WalkDown(tree: Tree, strict: bool, p: Path, hops: nat)
    requires IsTree(tree) && (p == [] || (p in tree && tree[p] == Directory))
    ensures Resolve(tree, strict, [], p, hops) == Ok(Resolved(p, hops))
    decreases |p|
  {
    if p != [] {
      CleanStep(tree, p);
      var above, name := Parent(p), p[|p| - 1];
      WalkDown(tree, strict, above, hops);
      ResolveTwo(tree, strict, [], above, [name], hops);
      OnePart(tree, strict, above, name, hops);
    }
  }

  /** From the root a link is reached without following any other. */
  lemma LinkReached(tree: Tree, strict: bool, q: Path)
    requires IsTree(tree) && q in tree && tree[q].Link?
    ensures var target := tree[q].target;
            Resolve(tree, strict, [], q, MAX_HOPS)
            == if strict && target == "" then Err(EmptyLink)
               else Resolve(tree, strict, BaseOf(target, Parent(q)), Parts(target), MAX_HOPS - 1)
  {
    CleanStep(tree, q);
    var above, name := Parent(q), q[|q| - 1];
    WalkDown(tree, strict, above, MAX_HOPS);
    ResolveTwo(tree, strict, [], above, [name], MAX_HOPS);
    OnePart(tree, strict, above, name, MAX_HOPS);
  }

  lemma BadLinkDiffers(tree: Tree, q: Path)
    requires IsTree(tree) && IsBadLink(tree, q)
    ensures Follow(tree, [], q, MAX_HOPS).Ok? && Resolve(tree, true, [], q, MAX_HOPS).Err?
  {
    var target := tree[q].target;
    LinkReached(tree, true, q);
    LinkReached(tree, false, q);
    FollowIsLenient(tree, q);
    if target != "" {
      LeavingFails(tree, BaseOf(target, Parent(q)), Parts(target), MAX_HOPS - 1);
    }
  }

  lemma CleanAgrees(tree: Tree, dir: Path)
    requires IsTree(tree) && NoBadLink(tree) && IsClean(dir)
    ensures Agrees(tree, dir)
  {
    FollowIsLenient(tree, dir);
    FollowMeetsStandard(tree, dir);
    CleanStays(tree, dir, MAX_HOPS);
    if Resolve(tree, false, [], dir, MAX_HOPS).Ok? {
      StrictToo(tree, [], dir, MAX_HOPS);
    }
  }

  /** The code and the standard find the same for every cleaned path if and only if no link in the tree is followed by
      the code although it is empty or leads out of a non-directory. */
  lemma AgreesExactly(tree: Tree)
    requires IsTree(tree)
    ensures (forall dir :: IsClean(dir) ==> Agrees(tree, dir)) <==> NoBadLink(tree)
  {
    if NoBadLink(tree) {
      forall dir | IsClean(dir) {
        CleanAgrees(tree, dir);
      }
    } else {
      var q :| q in tree && IsBadLink(tree, q);
      BadLinkDiffers(tree, q);
      assert IsClean(q) && !Agrees(tree, q);
    }
  }

  /** Such a link: /l leads to f/.. where f is a file. The code follows it to the root. */
  lemma LinkBehindFile(tree: Tree)
    requires IsTree(tree) && ["f"] in tree && tree[["f"]] == File
    requires ["l"] in tree && tree[["l"]] == Link("f/..")
    ensures IsBadLink(tree, ["l"])
    ensures Follow(tree, [], ["l"], MAX_HOPS) == Ok([]) && Resolve(tree, true, [], ["l"], MAX_HOPS).Err?
  {
    LinkText();
    FileThenUp(tree, "f", MAX_HOPS - 1);
    BadLinkDiffers(tree, ["l"]);
    LinkReached(tree, false, ["l"]);
    FollowIsLenient(tree, ["l"]);
  }

  lemma FileThenUp(tree: Tree, f: string, hops: nat)
    requires [f] in tree && tree[[f]] == File && !IsDots(f)
    ensures Resolve(tree, false, [], [f, ".."], hops) == Ok(Resolved([], hops))
    ensures LeavesFile(tree, [], [f, ".."], hops)
  {
    assert [f, ".."] == [f] + [".."] && [f, ".."][..1] == [f] && [] + [f] == [f];
    OnePart(tree, false, [], f, hops);
    OnePart(tree, false, [f], "..", hops);
    ResolveTwo(tree, false, [], [f], [".."], hops);
    assert LeavesFileAt(tree, [], [f, ".."], hops, 1);
  }

  lemma LinkText()
    ensures Parts("f/..") == ["f", ".."]
  {
    assert "f/.." == "f" + ['/'] + "..";
    SplitAppend("f", '/', "..");
    SplitFree("f", '/');
    SplitFree("..", '/');
  }
}
