/** Adding up the files and directories below some paths, each hard-linked object once (genericScan and scanRecursive,
    vfs/scanner.go). The file system does not change during a scan, and the scan is not cancelled. */
module Scanner {
  import opened Base

  /** The names from the base directory down. */
  type Path = seq<string>

  /** A device and an inode. */
  datatype Identity = Identity(device: nat, inode: nat)

  datatype Item = Item(
    name: string, isDir: bool, isSymlink: bool, size: nat, sizeKnown: bool, physicalSize: nat, identity: Identity)

  /** OpStats */
  datatype Stats = Stats(
    bytes: nat, dirBytes: nat, physicalBytes: nat, files: nat, dirs: nat, unknownSizeFiles: nat)

  datatype Options = Options(followSymlinkDirs: bool, followRootSymlinkDirs: bool, dedupInodes: bool)

  /** What the file system answers: a listing, None when it cannot be read; what is at a path; the identity of a path
      where it has one; and whether it knows physical sizes. */
  datatype World = World(
    list: Path -> Option<seq<Item>>,
    stat: Path -> Option<Item>,
    identify: Path -> Option<Identity>,
    supportsPhysicalSize: bool)

  datatype Outcome = Complete | TooDeep | NotFound

  const MAX_DEPTH: nat := 1000
  const NO_IDENTITY: Identity := Identity(0, 0)
  const NOTHING: Stats := Stats(0, 0, 0, 0, 0, 0)

  /** What an entry is counted by: its identity, or its own path where it has none or identities are not used. */
  datatype Key = Known(identity: Identity) | ByPath(path: Path)

  /** OpStats.Add */
  function Add(a: Stats, b: Stats): Stats {
    Stats(a.bytes + b.bytes, a.dirBytes + b.dirBytes, a.physicalBytes + b.physicalBytes,
          a.files + b.files, a.dirs + b.dirs, a.unknownSizeFiles + b.unknownSizeFiles)
  }

  // ----- one entry

  /** The identity, asked for where the listing did not bring one, but not for links. */
  function IdentityOf(w: World, path: Path, item: Item): Identity {
    if item.identity == NO_IDENTITY && !item.isSymlink then w.identify(path).GetOr(NO_IDENTITY) else item.identity
  }

  function KeyOf(w: World, o: Options, path: Path, item: Item): Key {
    if o.dedupInodes && IdentityOf(w, path, item) != NO_IDENTITY then Known(IdentityOf(w, path, item)) else ByPath(path)
  }

  /** The physical size, asked for where the listing did not bring one. */
  function PhysicalOf(w: World, path: Path, item: Item): nat {
    if item.physicalSize == 0 && item.size > 0 && !item.isSymlink && w.supportsPhysicalSize && w.stat(path).Some? then
      w.stat(path).value.physicalSize
    else item.physicalSize
  }

  /** Whether the scan goes into the entry: a directory, but a link only where links are followed. */
  predicate GoesInto(o: Options, item: Item, depth: nat) {
    item.isDir && (item.isSymlink ==> o.followSymlinkDirs || (depth == 0 && o.followRootSymlinkDirs))
  }

  /** What the entry itself adds. */
  function StatsOf(w: World, o: Options, path: Path, item: Item, depth: nat): Stats {
    if GoesInto(o, item, depth) then Stats(0, item.size, PhysicalOf(w, path, item), 0, 1, 0)
    else
      Stats(item.size, 0, PhysicalOf(w, path, item), 1, 0, if item.size == 0 && !item.sizeKnown then 1 else 0)
  }

  function WithoutParent(items: seq<Item>): seq<Item> {
    if items == [] then []
    else (if items[0].name == ".." then [] else [items[0]]) + WithoutParent(items[1..])
  }

  /** The entries below, none when the directory cannot be read. */
  function Children(w: World, path: Path): seq<Item> {
    WithoutParent(w.list(path).GetOr([]))
  }

  // ----- the walk

  /** seen: the identities met, as the scan keeps them; visited: everything counted so far. */
  datatype Totals = Totals(stats: Stats, seen: set<Identity>, visited: set<Key>)

  function Count(t: Totals, key: Key, stats: Stats): Totals {
    Totals(Add(t.stats, stats), if key.Known? then t.seen + {key.identity} else t.seen, t.visited + {key})
  }

  /** The totals after an entry and all below it, and whether the walk stayed within its depth. */
  function Scan(w: World, o: Options, path: Path, item: Item, depth: nat, t: Totals): (Totals, Outcome)
    decreases MAX_DEPTH - depth, 2, 0
  {
    if depth > MAX_DEPTH then (t, TooDeep)
    else
      var key := KeyOf(w, o, path, item);
      if key.Known? && key.identity in t.seen then (t, Complete)
      else
        var counted := Count(t, key, StatsOf(w, o, path, item, depth));
        if GoesInto(o, item, depth) then ScanAll(w, o, path, Children(w, path), depth + 1, counted)
        else (counted, Complete)
  }

  /** The same for the entries of a directory, up to the first that fails. */
  function ScanAll(w: World, o: Options, dir: Path, items: seq<Item>, depth: nat, t: Totals): (Totals, Outcome)
    requires depth <= MAX_DEPTH + 1
    decreases MAX_DEPTH + 1 - depth, 1, |items|
  {
    if items == [] then (t, Complete)
    else
      var (next, outcome) := Scan(w, o, dir + [items[0].name], items[0], depth, t);
      if outcome == Complete then ScanAll(w, o, dir, items[1..], depth, next) else (next, outcome)
  }

  /** The same for the paths a scan is asked for. */
  function ScanRoots(w: World, o: Options, names: seq<string>, t: Totals): (Totals, Outcome)
    decreases |names|
  {
    if names == [] then (t, Complete)
    else
      match w.stat([names[0]])
      case None => (t, NotFound)
      case Some(item) =>
        var (next, outcome) := Scan(w, o, [names[0]], item, 0, t);
        if outcome == Complete then ScanRoots(w, o, names[1..], next) else (next, outcome)
  }

  const EMPTY: Totals := Totals(NOTHING, {}, {})

  /** One scan under way: the totals and the seen identities are updated in place. */
  class Walk {
    const world: World
    const options: Options
    var stats: Stats
    var seen: set<Identity>
    ghost var visited: set<Key>

    ghost function Totalled(): Totals
      reads this
    {
      Totals(stats, seen, visited)
    }

    constructor (world: World, options: Options)
      ensures this.world == world && this.options == options && Totalled() == EMPTY
    {
      this.world, this.options := world, options;
      stats, seen, visited := NOTHING, {}, {};
    }

    /** scanRecursive */
    method ScanRecursive(path: Path, item: Item, depth: nat) returns (outcome: Outcome)
      modifies this
      ensures (Totalled(), outcome) == Scan(world, options, path, item, depth, old(Totalled()))
      decreases MAX_DEPTH + 1 - depth, 0
    {
      if depth > MAX_DEPTH {
        return TooDeep;
      }
      ghost var key := KeyOf(world, options, path, item);
      if options.dedupInodes {
        var identity := item.identity;
        if identity == NO_IDENTITY && !item.isSymlink {
          identity := world.identify(path).GetOr(NO_IDENTITY);
        }
        if identity != NO_IDENTITY {
          if identity in seen {
            return Complete;
          }
          seen := seen + {identity};
        }
      }
      visited := visited + {key};
      var physical := PhysicalOf(world, path, item);
      if item.isSymlink && !options.followSymlinkDirs && (depth != 0 || !options.followRootSymlinkDirs) {
        stats := Add(stats, Stats(item.size, 0, physical, 1, 0, if item.size == 0 && !item.sizeKnown then 1 else 0));
        return Complete;
      }
      if !item.isDir {
        stats := Add(stats, Stats(item.size, 0, physical, 1, 0, if item.size == 0 && !item.sizeKnown then 1 else 0));
        return Complete;
      }
      stats := Add(stats, Stats(0, item.size, physical, 0, 1, 0));
      var listing := world.list(path);
      if listing == None {
        assert WithoutParent([]) == [];
        return Complete;
      }
      outcome := ScanChildren(path, listing.value, depth + 1);
    }

    /** The loop over the entries of a directory. */
    method ScanChildren(path: Path, items: seq<Item>, depth: nat) returns (outcome: Outcome)
      requires depth <= MAX_DEPTH + 1
      modifies this
      ensures (Totalled(), outcome) == ScanAll(world, options, path, WithoutParent(items), depth, old(Totalled()))
      decreases MAX_DEPTH + 1 - depth, 1
    {
      for i := 0 to |items|
        invariant ScanAll(world, options, path, WithoutParent(items[i..]), depth, Totalled())
               == ScanAll(world, options, path, WithoutParent(items), depth, old(Totalled()))
      {
        var rest := items[i..];
        assert rest[0] == items[i] && rest[1..] == items[i + 1..];
        if items[i].name == ".." {
          assert WithoutParent(rest) == WithoutParent(items[i + 1..]);
          continue;
        }
        assert WithoutParent(rest)[0] == items[i] && WithoutParent(rest)[1..] == WithoutParent(items[i + 1..]);
        outcome := ScanRecursive(path + [items[i].name], items[i], depth);
        if outcome != Complete {
          return;
        }
      }
      outcome := Complete;
    }

    /** genericScan */
    method GenericScan(names: seq<string>) returns (outcome: Outcome)
      modifies this
      ensures (Totalled(), outcome) == ScanRoots(world, options, names, old(Totalled()))
    {
      for i := 0 to |names|
        invariant ScanRoots(world, options, names[i..], Totalled()) == ScanRoots(world, options, names, old(Totalled()))
      {
        var rest := names[i..];
        assert rest[0] == names[i] && rest[1..] == names[i + 1..];
        var item := world.stat([names[i]]);
        if item == None {
          return NotFound;
        }
        outcome := ScanRecursive([names[i]], item.value, 0);
        if outcome != Complete {
          return;
        }
      }
      outcome := Complete;
    }
  }
}
