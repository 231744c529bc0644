/** Where the trash directory of an item goes and how its origin is recorded (filesystemMountRoot, posixRelUnder and
    isPathWithin, vfs/trash_xdg.go). */
module MountRoot {
  import opened Base
  import opened PathResolve

  /** What lstat tells about an object. */
  datatype Stat = Stat(device: nat, isDirectory: bool)

  type Stats = map<Path, Stat>

  /** The directory the walk starts at. */
  function StartOf(stats: Stats, source: Path): Path
    requires source in stats
  {
    if stats[source].isDirectory then source else Parent(source)
  }

  /** Whether every directory from the root's to the one just above start is on the device, and the root's parent, if
      any, is on another one. */
  predicate IsMountRoot(stats: Stats, start: Path, device: nat, root: Path) {
    && root <= start
    && (forall k :: |root| <= k < |start| ==> start[..k] in stats && stats[start[..k]].device == device)
    && (root != [] ==> Parent(root) in stats && stats[Parent(root)].device != device)
  }

  /** Whether the walk up from a directory meets one that cannot be looked at before one on another device. */
  predicate IsCutOff(stats: Stats, start: Path, device: nat) {
    exists k :: 0 <= k < |start| && start[..k] !in stats
             && forall j :: k < j < |start| ==> start[..j] in stats && stats[start[..j]].device == device
  }

  /** The walk starts at a directory itself and at the directory of anything else. */
  method FilesystemMountRoot(stats: Stats, source: Path, device: nat) returns (root: Option<Path>)
    ensures source !in stats ==> root == None
    ensures source in stats ==>
              var start := if stats[source].isDirectory || source == [] then source else source[..|source| - 1];
              && (root == None <==> IsCutOff(stats, start, device))
              && (root.Some? ==> IsMountRoot(stats, start, device, root.value))
  {
    if source !in stats {
      return None;
    }
    var start := StartOf(stats, source);
    assert start == source[..|start|];
    var current := start;
    while current != []
      invariant current <= start
      invariant forall k :: |current| <= k < |start| ==> start[..k] in stats && stats[start[..k]].device == device
      decreases |current|
    {
      var parent := Parent(current);
      assert parent == start[..|parent|] == source[..|parent|];
      if parent !in stats {
        return None;
      }
      if stats[parent].device != device {
        return Some(current);
      }
      current := parent;
    }
    root := Some(current);
  }

  /** There is only one such directory. */
  lemma MountRootUnique(stats: Stats, start: Path, device: nat, a: Path, b: Path)
    requires IsMountRoot(stats, start, device, a) && IsMountRoot(stats, start, device, b)
    ensures a == b
  {
    if a != [] {
      ParentAbove(start, a);
    }
    if b != [] {
      ParentAbove(start, b);
    }
    assert a == start[..|a|] && b == start[..|b|];
  }

  lemma ParentAbove(start: Path, root: Path)
    requires root <= start && root != []
    ensures Parent(root) == start[..|root| - 1]
  {
  }

  // ----- paths as text

  /** The names of a path with dots resolved: a name drops out before "..", and nothing is above the root. */
  function Cleaned(done: Path, parts: seq<string>): Path
    decreases |parts|
  {
    if parts == [] then done
    else if parts[0] == "" || parts[0] == "." then Cleaned(done, parts[1..])
    else if parts[0] == ".." then Cleaned(Parent(done), parts[1..])
    else Cleaned(done + [parts[0]], parts[1..])
  }

  /** path.Clean of an absolute path. */
  function CleanPath(text: string): Path { Cleaned([], Parts(text)) }

  lemma {:induction false} CleanedClean(done: Path, parts: seq<string>)
    requires IsClean(done) && forall i :: 0 <= i < |parts| ==> '/' !in parts[i]
    ensures IsClean(Cleaned(done, parts))
    decreases |parts|
  {
    if parts != [] {
      CleanedClean(if parts[0] in ["", "."] then done else if parts[0] == ".." then Parent(done) else done + [parts[0]],
                   parts[1..]);
    }
  }

  /** Cleaning gives clean names. */
  lemma CleanPathClean(text: string)
    ensures IsClean(CleanPath(text))
  {
    JoinSplit(if text != "" && text[0] == '/' then text[1..] else text, '/');
    CleanedClean([], Parts(text));
  }

  lemma {:induction false} CleanedSame(done: Path, parts: seq<string>)
    requires IsClean(parts)
    ensures Cleaned(done, parts) == done + parts
    decreases |parts|
  {
    if parts != [] {
      CleanedSame(done + [parts[0]], parts[1..]);
    }
  }

  /** A clean path stays as it is. */
  lemma CleanPathText(p: Path)
    requires IsClean(p)
    ensures CleanPath(Text(p)) == p
  {
    PartsOfText(p);
    if p == [] {
      assert [""][1..] == [];
    } else {
      CleanedSame([], p);
    }
  }

  /** isPathWithin */
  predicate IsPathWithin(path: string, dir: string) {
    var p, d := Text(CleanPath(path)), Text(CleanPath(dir));
    p == d || d == "/" || d + "/" <= p
  }

  /** posixRelUnder */
  function RelUnder(base: string, target: string): Option<string> {
    var b, t := Text(CleanPath(base)), Text(CleanPath(target));
    if b == t then None
    else
      var prefix := if b == "/" then b else b + "/";
      if !(prefix <= t) || t[|prefix|..] == "" then None else Some(t[|prefix|..])
  }

  lemma TextInjective(p: Path, q: Path)
    requires IsClean(p) && IsClean(q) && Text(p) == Text(q)
    ensures p == q
  {
    CleanPathText(p);
    CleanPathText(q);
  }

  lemma TextOfPrefix(p: Path, q: Path)
    requires p < q && p != []
    ensures Text(q) == Text(p) + "/" + Join(q[|p|..], '/')
  {
    assert q == p + q[|p|..];
    JoinTwo(p, '/', q[|p|..]);
  }

  /** Below a directory in text is below it in names. */
  lemma PrefixOfText(p: Path, q: Path)
    requires IsClean(p) && IsClean(q) && p != [] && Text(p) + "/" <= Text(q)
    ensures p < q
  {
    var a := Join(p, '/');
    var tail := Text(q)[|Text(p)| + 1..];
    assert Text(q) == Text(p) + "/" + tail;
    assert Text(q)[1..] == a + ['/'] + tail;
    SplitAppend(a, '/', tail);
    SplitJoin(p, '/');
    PartsOfText(q);
  }

  /** For every pair of absolute paths, however they are written: the text comparison is the one by names. */
  lemma WithinMeansPrefix(path: string, dir: string)
    ensures IsPathWithin(path, dir) <==> CleanPath(dir) <= CleanPath(path)
  {
    var p, d := CleanPath(path), CleanPath(dir);
    CleanPathClean(path);
    CleanPathClean(dir);
    if d == [] {
      assert Text(d) == "/";
    } else if d < p {
      TextOfPrefix(d, p);
    } else if d == p {
      assert IsPathWithin(path, dir);
    } else if IsPathWithin(path, dir) {
      if Text(p) == Text(d) {
        TextInjective(p, d);
      } else {
        NotRoot(d);
        PrefixOfText(d, p);
      }
    }
  }

  lemma NotRoot(d: Path)
    requires IsClean(d) && d != []
    ensures Text(d) != "/"
  {
    CleanPathText(d);
    CleanPathText([]);
    assert Text([]) == "/";
  }

  /** The relative path exists exactly for what is below the base, and is the names below it. */
  lemma RelUnderMeansBelow(base: string, target: string)
    ensures var b, t := CleanPath(base), CleanPath(target);
            RelUnder(base, target) == if b < t then Some(Join(t[|b|..], '/')) else None
  {
    var b, t := CleanPath(base), CleanPath(target);
    CleanPathClean(base);
    CleanPathClean(target);
    if b < t {
      BelowText(b, t);
    } else if Text(b) != Text(t) {
      if b != [] {
        NotRoot(b);
        if Text(b) + "/" <= Text(t) {
          PrefixOfText(b, t);
        }
      }
    }
  }

  lemma BelowText(b: Path, t: Path)
    requires IsClean(b) && IsClean(t) && b < t
    ensures var prefix := if Text(b) == "/" then Text(b) else Text(b) + "/";
            Text(t) == prefix + Join(t[|b|..], '/') && Join(t[|b|..], '/') != "" && Text(b) != Text(t)
  {
    if b == [] {
      assert t[|b|..] == t;
      NotRoot(t);
    } else {
      NotRoot(b);
      TextOfPrefix(b, t);
    }
    JoinNotEmpty(t[|b|..]);
  }

  lemma JoinNotEmpty(p: Path)
    requires p != [] && forall i :: 0 <= i < |p| ==> p[i] != ""
    ensures Join(p, '/') != ""
  {
  }

  lemma RootJoined(source: Path)
    requires IsClean(source) && source != []
    ensures CleanPath(Text([]) + "/" + Join(source, '/')) == source
  {
    var rel := Join(source, '/');
    var text := Text([]) + "/" + rel;
    assert text[0] == '/' && text[1..] == [] + ['/'] + rel;
    SplitAppend([], '/', rel);
    SplitFree([], '/');
    SplitJoin(source, '/');
    var empty: string := [];
    assert ([empty] + source)[1..] == source;
    CleanedSame([], source);
  }

  /** The walk and the relative path fit: an item that is not the mount root itself has a relative path, and the root
      joined with it is the item. */
  lemma MountRootRelative(stats: Stats, source: Path, device: nat, root: Path)
    requires IsClean(source) && source in stats && source != root
    requires IsMountRoot(stats, StartOf(stats, source), device, root)
    ensures var rel := RelUnder(Text(root), Text(source));
            rel.Some? && CleanPath(Text(root) + "/" + rel.value) == source
  {
    var start := StartOf(stats, source);
    assert root == start[..|root|] == source[..|root|];
    var below := source[|root|..];
    assert source == root + below;
    assert IsClean(root) && IsClean(below);
    CleanPathText(root);
    CleanPathText(source);
    RelUnderMeansBelow(Text(root), Text(source));
    if root == [] {
      assert below == source;
      RootJoined(source);
    } else {
      TextOfPrefix(root, source);
    }
  }
}
