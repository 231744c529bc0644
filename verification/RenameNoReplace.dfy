/** The portable rename that must not replace its destination (renameNoReplacePortable, vfs/rename_noreplace.go), for a
    source and a destination that are not the same object. Each system call is one step; between any two of them other
    processes may create names, also inside directories and as hard links, but remove and rename nothing. */
module RenameNoReplace {
  import opened Base

  type Id = nat
  type Name = string

  /** What an object is; a symbolic link has the object it finally leads to, if any. */
  datatype Kind = Directory | Regular | Symlink(target: Option<Id>) | Special

  /** filled: the directories with something in them. */
  datatype FileSystem = FileSystem(names: map<Name, Id>, kinds: map<Id, Kind>, filled: set<Id>)

  /** linkFollows: link(2) makes a link to what a symbolic link leads to, as some systems do. */
  datatype Job = Job(oldPath: Name, newPath: Name, linkFollows: bool)

  datatype Outcome = Renamed | DestinationExists | Unsupported | Failed

  datatype Pc =
    | CheckNew | LookAtOld
    | MakeDir | RenameOver(looked: bool) | DropDir(existed: bool) | CheckAgain | RenameAgain(looked: bool)
    | MakeLink | DropOld | DropLink | Done(outcome: Outcome)

  /** held: the destination is the entry this rename made to reserve it; leaked: it could not remove such an entry. */
  datatype State = State(fs: FileSystem, pc: Pc, held: bool, leaked: bool)

  /** Whether a call of this rename goes through, fails, or fails as if something existed. */
  datatype Choice = Go | Fail | FailExists

  /** A step of the rename, which may make the directory id, or of another process. */
  datatype Event =
    | Own(choice: Choice, id: Id)
    | CreateName(name: Name, id: Id, kind: Kind)
    | FillDirectory(id: Id)
    | CreateElsewhere(id: Id, kind: Kind)

  predicate IsDirectory(fs: FileSystem, x: Id) {
    x in fs.kinds && fs.kinds[x] == Directory
  }

  predicate IsEmptyDirectory(fs: FileSystem, x: Id) {
    IsDirectory(fs, x) && x !in fs.filled
  }

  /** os.Remove works on everything but a directory with something in it. */
  predicate CanRemove(fs: FileSystem, name: Name) {
    name in fs.names && (IsDirectory(fs, fs.names[name]) ==> fs.names[name] !in fs.filled)
  }

  function Unlink(fs: FileSystem, name: Name): FileSystem {
    fs.(names := fs.names - {name})
  }

  /** rename(2) of a directory: over nothing or over an empty directory. */
  predicate CanRename(j: Job, fs: FileSystem) {
    j.oldPath in fs.names && (j.newPath in fs.names ==> IsEmptyDirectory(fs, fs.names[j.newPath]))
  }

  function Rename(j: Job, fs: FileSystem): FileSystem
    requires j.oldPath in fs.names
  {
    fs.(names := (fs.names - {j.oldPath})[j.newPath := fs.names[j.oldPath]])
  }

  /** The object link(2) makes a name for. */
  function Linked(j: Job, fs: FileSystem): Option<Id> {
    if j.oldPath !in fs.names || fs.names[j.oldPath] !in fs.kinds then None
    else
      match fs.kinds[fs.names[j.oldPath]]
      case Symlink(target) => if j.linkFollows then target else Some(fs.names[j.oldPath])
      case _ => Some(fs.names[j.oldPath])
  }

  predicate CanLink(j: Job, fs: FileSystem) {
    Linked(j, fs).Some? && Linked(j, fs).value in fs.kinds && fs.kinds[Linked(j, fs).value] != Directory
  }

  // ----- the steps

  function Look(j: Job, s: State, c: Choice): State {
    if c != Go || j.oldPath !in s.fs.names || s.fs.names[j.oldPath] !in s.fs.kinds then s.(pc := Done(Failed))
    else
      match s.fs.kinds[s.fs.names[j.oldPath]]
      case Directory => s.(pc := MakeDir)
      case Special => s.(pc := Done(Unsupported))
      case _ => s.(pc := MakeLink)
  }

  function Check(j: Job, s: State, c: Choice, next: Pc): State {
    s.(pc := if c != Go then Done(Failed) else if j.newPath in s.fs.names then Done(DestinationExists) else next)
  }

  /** The first half of os.Rename on Unix: a directory at the destination, even an empty one, is an error as if
      something existed. Where the destination cannot be looked at, which FailExists stands for here, rename(2)
      decides. */
  function LookBeforeRename(j: Job, s: State, c: Choice, call: Pc, existed: Pc, failed: Pc): State {
    s.(pc := if c == Fail then failed
             else if c == Go && j.newPath in s.fs.names && IsDirectory(s.fs, s.fs.names[j.newPath]) then existed
             else call)
  }

  function DirectoryStep(j: Job, s: State, c: Choice, id: Id): State {
    match s.pc
    case MakeDir =>
      if j.newPath in s.fs.names then s.(pc := Done(DestinationExists))
      else if c != Go || id in s.fs.kinds || id in s.fs.filled then s.(pc := Done(Failed))
      else
        s.(fs := s.fs.(names := s.fs.names[j.newPath := id], kinds := s.fs.kinds[id := Directory]),
           pc := RenameOver(false), held := true)
    case RenameOver(false) => LookBeforeRename(j, s, c, RenameOver(true), DropDir(true), DropDir(false))
    case RenameOver(true) =>
      if c == Go && CanRename(j, s.fs) then s.(fs := Rename(j, s.fs), pc := Done(Renamed), held := false)
      else
        // ENOTEMPTY counts as existing, too
        var filled := j.newPath in s.fs.names && s.fs.names[j.newPath] in s.fs.filled;
        s.(pc := DropDir(c == FailExists || (c == Go && filled)))
    case DropDir(existed) =>
      var next := if existed then CheckAgain else Done(Failed);
      if c == Go && CanRemove(s.fs, j.newPath) then s.(fs := Unlink(s.fs, j.newPath), pc := next, held := false)
      else s.(pc := next, leaked := true)
    case RenameAgain(false) => LookBeforeRename(j, s, c, RenameAgain(true), Done(Failed), Done(Failed))
    case RenameAgain(true) =>
      if c == Go && CanRename(j, s.fs) then s.(fs := Rename(j, s.fs), pc := Done(Renamed))
      else s.(pc := Done(Failed))
    case _ => s
  }

  function LinkStep(j: Job, s: State, c: Choice): State {
    match s.pc
    case MakeLink =>
      if j.newPath in s.fs.names then s.(pc := Done(DestinationExists))
      else if c != Go || !CanLink(j, s.fs) then s.(pc := Done(Failed))
      else
        s.(fs := s.fs.(names := s.fs.names[j.newPath := Linked(j, s.fs).value]), pc := DropOld, held := true)
    case DropOld =>
      if c == Go && CanRemove(s.fs, j.oldPath) then
        s.(fs := Unlink(s.fs, j.oldPath), pc := Done(Renamed), held := false)
      else s.(pc := DropLink)
    case DropLink =>
      if c == Go && CanRemove(s.fs, j.newPath) then
        s.(fs := Unlink(s.fs, j.newPath), pc := Done(Failed), held := false)
      else s.(pc := Done(Failed), leaked := true)
    case _ => s
  }

  function OwnStep(j: Job, s: State, c: Choice, id: Id): State {
    match s.pc
    case CheckNew => Check(j, s, c, LookAtOld)
    case LookAtOld => Look(j, s, c)
    case CheckAgain => Check(j, s, c, RenameAgain(false))
    case MakeLink => LinkStep(j, s, c)
    case DropOld => LinkStep(j, s, c)
    case DropLink => LinkStep(j, s, c)
    case Done(_) => s
    case _ => DirectoryStep(j, s, c, id)
  }

  /** Another process makes a name, for a new object or as a hard link to one that is not a directory. */
  function Create(fs: FileSystem, name: Name, id: Id, kind: Kind): FileSystem {
    if name in fs.names then fs
    else if id in fs.kinds then
      if fs.kinds[id] == Directory then fs else fs.(names := fs.names[name := id])
    else if id in fs.filled then fs
    else fs.(names := fs.names[name := id], kinds := fs.kinds[id := kind])
  }

  function Next(j: Job, s: State, e: Event): State {
    match e
    case Own(c, id) => OwnStep(j, s, c, id)
    case CreateName(name, id, kind) => s.(fs := Create(s.fs, name, id, kind))
    case FillDirectory(id) => if IsDirectory(s.fs, id) then s.(fs := s.fs.(filled := s.fs.filled + {id})) else s
    case CreateElsewhere(id, kind) =>
      if id in s.fs.kinds || id in s.fs.filled then s else s.(fs := s.fs.(kinds := s.fs.kinds[id := kind]))
  }

  function Run(j: Job, s: State, events: seq<Event>): State
    decreases |events|
  {
    if events == [] then s else Run(j, Next(j, s, events[0]), events[1..])
  }

  /** Any file system in which every name is of an object. */
  predicate IsFileSystem(fs: FileSystem) {
    (forall n :: n in fs.names ==> fs.names[n] in fs.kinds) && forall x :: x in fs.filled ==> IsDirectory(fs, x)
  }

  function Start(fs: FileSystem): State {
    State(fs, CheckNew, false, false)
  }

  predicate Names(fs: FileSystem, name: Name, x: Id) {
    name in fs.names && fs.names[name] == x
  }

  // ----- the invariant

  /** What holds also where link(2) leads away: the old name stays until the rename succeeds, and while the destination
      is reserved it is an entry of this rename, for a directory another directory. */
  predicate Reserves(j: Job, s: State, x: Id) {
    && IsFileSystem(s.fs) && x in s.fs.kinds
    && (s.pc != Done(Renamed) ==> Names(s.fs, j.oldPath, x))
    && (s.held ==>
          && j.newPath in s.fs.names
          && (s.fs.kinds[x] == Directory ==>
                s.fs.names[j.newPath] != x && IsDirectory(s.fs, s.fs.names[j.newPath])))
    && (s.pc.MakeDir? || s.pc.RenameOver? || s.pc.DropDir? || s.pc.CheckAgain? || s.pc.RenameAgain?
        ==> s.fs.kinds[x] == Directory)
    && (s.pc.MakeLink? || s.pc.DropOld? || s.pc.DropLink? ==> s.fs.kinds[x] != Directory)
    && (s.pc.RenameOver? || s.pc.DropDir? || s.pc.DropOld? || s.pc.DropLink? ==> s.held)
    && (s.pc.RenameAgain? ==> !s.held)
    && (s.held ==> s.pc.RenameOver? || s.pc.DropDir? || s.pc.DropOld? || s.pc.DropLink? || s.leaked)
  }

  /** Where the object x is: at the new name after success, and there too while a link reserves it. */
  predicate Inv(j: Job, s: State, x: Id) {
    && Reserves(j, s, x)
    && (s.pc == Done(Renamed) ==> Names(s.fs, j.newPath, x))
    && (s.held && s.fs.kinds[x] != Directory ==> s.fs.names[j.newPath] == x)
  }

  /** The object is a symbolic link that link(2) follows to another object, there or still to be made. */
  predicate LinksAway(j: Job, fs: FileSystem, x: Id) {
    && j.linkFollows && x in fs.kinds && fs.kinds[x].Symlink?
    && fs.kinds[x].target.Some? && fs.kinds[x].target.value != x && !IsDirectory(fs, fs.kinds[x].target.value)
  }

  /** Every name there was at the start is as it was, but for the old name once the object is renamed. */
  predicate KeepsNames(j: Job, start: FileSystem, s: State) {
    && (forall n :: n in start.names && (n != j.oldPath || s.pc != Done(Renamed)) ==> Names(s.fs, n, start.names[n]))
    && (s.held || !(s.pc.CheckNew? || s.pc.Done?) || s.pc == Done(Renamed) ==> j.newPath !in start.names)
  }

  lemma ReservesNext(j: Job, s: State, e: Event, x: Id)
    requires Reserves(j, s, x) && j.oldPath != j.newPath
    ensures Reserves(j, Next(j, s, e), x)
  {
    if e.Own? {
      ReservesOwn(j, s, e.choice, e.id, x);
    }
  }

  lemma ReservesLook(j: Job, s: State, c: Choice, id: Id, x: Id)
    requires Reserves(j, s, x) && j.oldPath != j.newPath
    requires s.pc.CheckNew? || s.pc.CheckAgain? || s.pc.LookAtOld?
    ensures Reserves(j, OwnStep(j, s, c, id), x)
  {
  }

  lemma ReservesDirectory(j: Job, s: State, c: Choice, id: Id, x: Id)
    requires Reserves(j, s, x) && j.oldPath != j.newPath
    requires s.pc.MakeDir? || s.pc.RenameOver? || s.pc.DropDir? || s.pc.RenameAgain?
    ensures Reserves(j, DirectoryStep(j, s, c, id), x)
  {
  }

  lemma ReservesLink(j: Job, s: State, c: Choice, id: Id, x: Id)
    requires Reserves(j, s, x) && j.oldPath != j.newPath
    requires s.pc.MakeLink? || s.pc.DropOld? || s.pc.DropLink?
    ensures Reserves(j, LinkStep(j, s, c), x)
  {
  }

  lemma ReservesOwn(j: Job, s: State, c: Choice, id: Id, x: Id)
    requires Reserves(j, s, x) && j.oldPath != j.newPath
    ensures Reserves(j, OwnStep(j, s, c, id), x)
  {
    if s.pc.CheckNew? || s.pc.CheckAgain? || s.pc.LookAtOld? {
      ReservesLook(j, s, c, id, x);
    } else if s.pc.MakeLink? || s.pc.DropOld? || s.pc.DropLink? {
      ReservesLink(j, s, c, id, x);
    } else if !s.pc.Done? {
      ReservesDirectory(j, s, c, id, x);
    }
  }

  lemma {:induction false} RunReserves(j: Job, s: State, events: seq<Event>, x: Id)
    requires Reserves(j, s, x) && j.oldPath != j.newPath
    ensures Reserves(j, Run(j, s, events), x)
    decreases |events|
  {
    if events != [] {
      ReservesNext(j, s, events[0], x);
      RunReserves(j, Next(j, s, events[0]), events[1..], x);
    }
  }

  lemma CheckInv(j: Job, s: State, c: Choice, x: Id)
    requires Inv(j, s, x) && j.oldPath != j.newPath
    requires s.pc.CheckNew? || s.pc.CheckAgain? || s.pc.LookAtOld?
    ensures Inv(j, OwnStep(j, s, c, 0), x)
  {
  }

  lemma DirectoryInv(j: Job, s: State, c: Choice, id: Id, x: Id)
    requires Inv(j, s, x) && j.oldPath != j.newPath
    requires s.pc.MakeDir? || s.pc.RenameOver? || s.pc.DropDir? || s.pc.RenameAgain?
    ensures Inv(j, DirectoryStep(j, s, c, id), x)
  {
  }

  lemma LinkInv(j: Job, s: State, c: Choice, x: Id)
    requires Inv(j, s, x) && j.oldPath != j.newPath && !LinksAway(j, s.fs, x)
    requires s.pc.MakeLink? || s.pc.DropOld? || s.pc.DropLink?
    ensures Inv(j, LinkStep(j, s, c), x)
  {
  }

  lemma CreateInv(j: Job, s: State, name: Name, id: Id, kind: Kind, x: Id)
    requires Inv(j, s, x)
    ensures Inv(j, s.(fs := Create(s.fs, name, id, kind)), x)
  {
  }

  lemma NextInv(j: Job, s: State, e: Event, x: Id)
    requires Inv(j, s, x) && j.oldPath != j.newPath && !LinksAway(j, s.fs, x)
    ensures Inv(j, Next(j, s, e), x)
  {
    match e
    case Own(c, id) =>
      match s.pc {
        case CheckNew => CheckInv(j, s, c, x);
        case CheckAgain => CheckInv(j, s, c, x);
        case LookAtOld => CheckInv(j, s, c, x);
        case MakeLink => LinkInv(j, s, c, x);
        case DropOld => LinkInv(j, s, c, x);
        case DropLink => LinkInv(j, s, c, x);
        case Done(_) =>
        case _ => DirectoryInv(j, s, c, id, x);
      }
    case CreateName(name, id, kind) => CreateInv(j, s, name, id, kind, x);
    case FillDirectory(id) =>
    case CreateElsewhere(id, kind) =>
  }

  /** No step changes what an object is. */
  ghost predicate SameKinds(a: FileSystem, b: FileSystem) {
    forall x :: x in a.kinds ==> x in b.kinds && b.kinds[x] == a.kinds[x]
  }

  lemma NextKinds(j: Job, s: State, e: Event)
    ensures SameKinds(s.fs, Next(j, s, e).fs)
  {
  }

  /** Whether link(2) leads away is settled from the start. */
  lemma LinksAwayStays(j: Job, a: FileSystem, b: FileSystem, x: Id)
    requires SameKinds(a, b) && x in a.kinds && !LinksAway(j, a, x)
    ensures !LinksAway(j, b, x)
  {
  }

  lemma {:induction false} RunInv(j: Job, s: State, events: seq<Event>, x: Id)
    requires Inv(j, s, x) && j.oldPath != j.newPath && !LinksAway(j, s.fs, x)
    ensures Inv(j, Run(j, s, events), x)
    decreases |events|
  {
    if events != [] {
      NextInv(j, s, events[0], x);
      NextKinds(j, s, events[0]);
      LinksAwayStays(j, s.fs, Next(j, s, events[0]).fs, x);
      RunInv(j, Next(j, s, events[0]), events[1..], x);
    }
  }

  lemma KeepsNamesInLook(j: Job, start: FileSystem, s: State, c: Choice, id: Id)
    requires j.oldPath != j.newPath && KeepsNames(j, start, s)
    requires s.pc.CheckNew? || s.pc.CheckAgain? || s.pc.LookAtOld?
    ensures KeepsNames(j, start, OwnStep(j, s, c, id))
  {
  }

  lemma KeepsNamesInDirectory(j: Job, start: FileSystem, s: State, c: Choice, id: Id)
    requires j.oldPath != j.newPath && KeepsNames(j, start, s)
    requires s.pc.MakeDir? || s.pc.RenameOver? || s.pc.DropDir? || s.pc.RenameAgain?
    ensures KeepsNames(j, start, DirectoryStep(j, s, c, id))
  {
  }

  lemma KeepsNamesInLink(j: Job, start: FileSystem, s: State, c: Choice, id: Id)
    requires j.oldPath != j.newPath && KeepsNames(j, start, s)
    requires s.pc.MakeLink? || s.pc.DropOld? || s.pc.DropLink?
    ensures KeepsNames(j, start, LinkStep(j, s, c))
  {
  }

  lemma OwnKeepsNames(j: Job, start: FileSystem, s: State, c: Choice, id: Id)
    requires j.oldPath != j.newPath && KeepsNames(j, start, s)
    ensures KeepsNames(j, start, OwnStep(j, s, c, id))
  {
    if s.pc.CheckNew? || s.pc.CheckAgain? || s.pc.LookAtOld? {
      KeepsNamesInLook(j, start, s, c, id);
    } else if s.pc.MakeLink? || s.pc.DropOld? || s.pc.DropLink? {
      KeepsNamesInLink(j, start, s, c, id);
    } else if !s.pc.Done? {
      KeepsNamesInDirectory(j, start, s, c, id);
    }
  }

  lemma NextKeepsNames(j: Job, start: FileSystem, s: State, e: Event)
    requires j.oldPath != j.newPath && KeepsNames(j, start, s)
    ensures KeepsNames(j, start, Next(j, s, e))
  {
    if e.Own? {
      OwnKeepsNames(j, start, s, e.choice, e.id);
    }
  }

  lemma {:induction false} RunKeepsNames(j: Job, start: FileSystem, s: State, events: seq<Event>)
    requires j.oldPath != j.newPath && KeepsNames(j, start, s)
    ensures KeepsNames(j, start, Run(j, s, events))
    decreases |events|
  {
    if events != [] {
      NextKeepsNames(j, start, s, events[0]);
      RunKeepsNames(j, start, Next(j, s, events[0]), events[1..]);
    }
  }

  // ----- what holds at every step of every run

  /** The object is under the old or the new name; it is at the new one after success, and at the old one after an
      error, with nothing of this rename left at the new one unless a removal failed. */
  predicate ObjectKept(j: Job, s: State, x: Id) {
    && (Names(s.fs, j.oldPath, x) || Names(s.fs, j.newPath, x))
    && (s.pc == Done(Renamed) ==> Names(s.fs, j.newPath, x))
    && (s.pc.Done? && s.pc != Done(Renamed) ==> Names(s.fs, j.oldPath, x) && (s.held ==> s.leaked))
  }

  ghost predicate AlwaysKept(j: Job, fs: FileSystem, x: Id) {
    forall events :: ObjectKept(j, Run(j, Start(fs), events), x)
  }

  predicate IsRenameable(j: Job, fs: FileSystem, x: Id) {
    IsFileSystem(fs) && j.oldPath != j.newPath && Names(fs, j.oldPath, x)
  }

  /** Nothing there at the start is ever replaced or removed, whatever the object is and whatever other processes create
      meanwhile; only the old name goes, and only when the rename succeeds. */
  lemma NothingReplaced(j: Job, fs: FileSystem, events: seq<Event>, n: Name)
    requires j.oldPath != j.newPath && n in fs.names
    ensures var s := Run(j, Start(fs), events);
            n != j.oldPath || s.pc != Done(Renamed) ==> Names(s.fs, n, fs.names[n])
  {
    RunKeepsNames(j, fs, Start(fs), events);
  }

  /** What any step of a run takes away from a name is an empty directory; or the object itself, which then still has
      the other name; or, where link(2) leads away from the object, the object's old name or the link just made. */
  lemma OnlyEmptyDirectoryLost(j: Job, fs: FileSystem, x: Id, events: seq<Event>, e: Event, n: Name)
    requires IsRenameable(j, fs, x)
    requires n in Run(j, Start(fs), events).fs.names
    ensures var s := Run(j, Start(fs), events);
            var y, t := s.fs.names[n], Next(j, s, e);
            || Names(t.fs, n, y) || IsEmptyDirectory(s.fs, y)
            || (y == x && Names(t.fs, if n == j.oldPath then j.newPath else j.oldPath, x))
            || (LinksAway(j, fs, x) && ((n == j.oldPath && y == x) || (n == j.newPath && s.held)))
  {
    var s := Run(j, Start(fs), events);
    RunReserves(j, Start(fs), events, x);
    if !LinksAway(j, fs, x) {
      RunInv(j, Start(fs), events, x);
    }
    if e.Own? {
      OwnLoss(j, s, e.choice, e.id, x, n);
    }
  }

  lemma OwnLoss(j: Job, s: State, c: Choice, id: Id, x: Id, n: Name)
    requires Reserves(j, s, x) && j.oldPath != j.newPath && n in s.fs.names
    ensures var y, t := s.fs.names[n], OwnStep(j, s, c, id);
            || Names(t.fs, n, y) || IsEmptyDirectory(s.fs, y)
            || (y == x && Names(t.fs, if n == j.oldPath then j.newPath else j.oldPath, x))
            || (!Inv(j, s, x) && ((n == j.oldPath && y == x) || (n == j.newPath && s.held)))
  {
  }

  /** A run in which link(2) follows the link: the object is lost although the rename succeeds. */
  lemma LinksAwayLoses(j: Job, fs: FileSystem, x: Id) returns (events: seq<Event>)
    requires IsRenameable(j, fs, x) && j.newPath !in fs.names && LinksAway(j, fs, x)
    ensures var s := Run(j, Start(fs), events);
            s.pc == Done(Renamed) && !Names(s.fs, j.oldPath, x) && !Names(s.fs, j.newPath, x)
  {
    var y := fs.kinds[x].target.value;
    var made := CreateElsewhere(y, Regular);
    var go := Own(Go, 0);
    events := [made, go, go, go, go];
    var s0 := Start(fs);
    var s1 := Next(j, s0, made);
    assert y in s1.fs.kinds && s1.fs.kinds[y] != Directory && s1.fs.kinds[x] == fs.kinds[x];
    var s2 := Next(j, s1, go);
    var s3 := Next(j, s2, go);
    var s4 := Next(j, s3, go);
    assert Names(s4.fs, j.newPath, y);
    var s5 := Next(j, s4, go);
    RunFour(j, s1, go, s2, s3, s4, s5);
    assert events[1..] == [go, go, go, go];
  }

  lemma RunFour(j: Job, s1: State, e: Event, s2: State, s3: State, s4: State, s5: State)
    requires s2 == Next(j, s1, e) && s3 == Next(j, s2, e) && s4 == Next(j, s3, e) && s5 == Next(j, s4, e)
    ensures Run(j, s1, [e, e, e, e]) == s5
  {
    assert [e, e, e, e][1..] == [e, e, e] && [e, e, e][1..] == [e, e] && [e, e][1..] == [e] && [e][1..] == [];
    assert Run(j, s4, [e]) == Run(j, s5, []) == s5;
    assert Run(j, s3, [e, e]) == s5;
    assert Run(j, s2, [e, e, e]) == s5;
  }

  /** The object is kept in every run exactly when the destination is taken from the start or link(2) does not lead away
      from the object. */
  lemma KeptExactly(j: Job, fs: FileSystem, x: Id)
    requires IsRenameable(j, fs, x)
    ensures AlwaysKept(j, fs, x) <==> j.newPath in fs.names || !LinksAway(j, fs, x)
  {
    if !LinksAway(j, fs, x) {
      forall events {
        RunInv(j, Start(fs), events, x);
      }
    } else if j.newPath in fs.names {
      forall events {
        RunTaken(j, Start(fs), events, x);
      }
    } else {
      var events := LinksAwayLoses(j, fs, x);
      assert !ObjectKept(j, Run(j, Start(fs), events), x);
    }
  }

  /** With the destination taken from the start the rename only looks and gives up. */
  predicate OnlyLooks(j: Job, s: State, x: Id) {
    (s.pc.CheckNew? || (s.pc.Done? && s.pc != Done(Renamed))) && !s.held
    && j.newPath in s.fs.names && Names(s.fs, j.oldPath, x)
  }

  lemma {:induction false} RunTaken(j: Job, s: State, events: seq<Event>, x: Id)
    requires OnlyLooks(j, s, x)
    ensures OnlyLooks(j, Run(j, s, events), x)
    decreases |events|
  {
    if events != [] {
      RunTaken(j, Next(j, s, events[0]), events[1..], x);
    }
  }

  /** With nothing in the way the rename of a directory, a file or a symbolic link that is not followed succeeds: the
      object has the new name and no longer the old one, and everything else is as it was. A directory takes the way
      past its own reservation, which is dropped before it is renamed. */
  lemma UnobstructedRenames(j: Job, fs: FileSystem, x: Id, id: Id) returns (events: seq<Event>)
    requires IsRenameable(j, fs, x) && j.newPath !in fs.names && !LinksAway(j, fs, x) && !fs.kinds[x].Special?
    requires id !in fs.kinds && (fs.kinds[x].Symlink? && j.linkFollows ==> fs.kinds[x].target == Some(x))
    ensures var s := Run(j, Start(fs), events);
            && s.pc == Done(Renamed) && s.fs.names == (fs.names - {j.oldPath})[j.newPath := x]
            && forall e :: e in events ==> e == Own(Go, id)
  {
    var go := Own(Go, id);
    if fs.kinds[x] == Directory {
      DirectoryRenamed(j, fs, x, id);
      events := [go, go, go, go] + [go, go, go, go];
    } else {
      events := [go, go, go, go];
      var s1 := Next(j, Start(fs), go);
      var s2 := Next(j, s1, go);
      var s3 := Next(j, s2, go);
      var s4 := Next(j, s3, go);
      RunFour(j, Start(fs), go, s1, s2, s3, s4);
      assert s2.pc == MakeLink && s3.pc == DropOld;
      assert s3.fs.names == fs.names[j.newPath := x];
      assert s4.fs.names == (fs.names - {j.oldPath})[j.newPath := x];
    }
  }

  /** The way of a directory: reserved, refused by os.Rename, the reservation dropped, and renamed at last. */
  lemma DirectoryRenamed(j: Job, fs: FileSystem, x: Id, id: Id)
    requires IsRenameable(j, fs, x) && j.newPath !in fs.names && fs.kinds[x] == Directory && id !in fs.kinds
    ensures var go := Own(Go, id);
            var s := Run(j, Start(fs), [go, go, go, go] + [go, go, go, go]);
            s.pc == Done(Renamed) && s.fs.names == (fs.names - {j.oldPath})[j.newPath := x]
  {
    var go := Own(Go, id);
    var s1 := Next(j, Start(fs), go);
    var s2 := Next(j, s1, go);
    var s3 := Next(j, s2, go);
    var s4 := Next(j, s3, go);
    assert s2.pc == MakeDir && s3.pc == RenameOver(false) && s4.pc == DropDir(true);
    assert s4.fs.names == fs.names[j.newPath := id] && IsDirectory(s4.fs, id) && id !in s4.fs.filled;
    RunFour(j, Start(fs), go, s1, s2, s3, s4);
    RunTwice(j, Start(fs), [go, go, go, go], [go, go, go, go]);
    ReservationDropped(j, s4, fs.names, x, id);
  }

  lemma ReservationDropped(j: Job, s4: State, names: map<Name, Id>, x: Id, id: Id)
    requires s4.pc == DropDir(true) && s4.fs.names == names[j.newPath := id] && j.newPath !in names
    requires IsDirectory(s4.fs, id) && id !in s4.fs.filled
    requires j.oldPath != j.newPath && j.oldPath in names && names[j.oldPath] == x
    ensures var go := Own(Go, id);
            var s := Run(j, s4, [go, go, go, go]);
            s.pc == Done(Renamed) && s.fs.names == (names - {j.oldPath})[j.newPath := x]
  {
    var go := Own(Go, id);
    var s5 := Next(j, s4, go);
    assert s5.fs.names == names && s5.pc == CheckAgain;
    var s6 := Next(j, s5, go);
    assert s6.pc == RenameAgain(false) && s6.fs == s5.fs;
    var s7 := Next(j, s6, go);
    assert s7.pc == RenameAgain(true) && s7.fs == s5.fs;
    var s8 := Next(j, s7, go);
    assert s8.pc == Done(Renamed);
    RunFour(j, s4, go, s5, s6, s7, s8);
  }

  lemma {:induction false} RunTwice(j: Job, s: State, a: seq<Event>, b: seq<Event>)
    ensures Run(j, s, a + b) == Run(j, Run(j, s, a), b)
    decreases |a|
  {
    if a == [] {
      assert a + b == b;
    } else {
      assert (a + b)[0] == a[0] && (a + b)[1..] == a[1..] + b;
      RunTwice(j, Next(j, s, a[0]), a[1..], b);
    }
  }

  // ----- which error

  /** Whoever looks at the destination, or makes it, when it is taken ends with that error and has changed nothing. */
  lemma TakenIsExists(j: Job, s: State, id: Id)
    requires s.pc in {CheckNew, CheckAgain, MakeDir, MakeLink} && j.newPath in s.fs.names
    ensures Next(j, s, Own(Go, id)) == s.(pc := Done(DestinationExists))
  {
  }

  /** A destination that is there from the start is reported at once, whatever is at the old name. */
  lemma TakenFromTheStart(j: Job, fs: FileSystem, id: Id)
    requires j.newPath in fs.names
    ensures Run(j, Start(fs), [Own(Go, id)]) == State(fs, Done(DestinationExists), false, false)
  {
    TakenIsExists(j, Start(fs), id);
    assert [Own(Go, id)][1..] == [];
  }

  lemma ExistsNext(j: Job, s: State, e: Event)
    requires s.pc == Done(DestinationExists) ==> j.newPath in s.fs.names
    ensures Next(j, s, e).pc == Done(DestinationExists) ==> j.newPath in Next(j, s, e).fs.names
  {
    if e.Own? {
      ExistsOwn(j, s, e.choice, e.id);
    }
  }

  lemma ExistsOwn(j: Job, s: State, c: Choice, id: Id)
    requires s.pc == Done(DestinationExists) ==> j.newPath in s.fs.names
    ensures OwnStep(j, s, c, id).pc == Done(DestinationExists) ==> j.newPath in OwnStep(j, s, c, id).fs.names
  {
  }

  lemma {:induction false} RunExists(j: Job, s: State, events: seq<Event>)
    requires s.pc == Done(DestinationExists) ==> j.newPath in s.fs.names
    ensures Run(j, s, events).pc == Done(DestinationExists) ==> j.newPath in Run(j, s, events).fs.names
    decreases |events|
  {
    if events != [] {
      ExistsNext(j, s, events[0]);
      RunExists(j, Next(j, s, events[0]), events[1..]);
    }
  }

  /** In every run that error is reported only of a destination that is there. */
  lemma ExistsMeansTaken(j: Job, fs: FileSystem, events: seq<Event>)
    ensures var s := Run(j, Start(fs), events); s.pc == Done(DestinationExists) ==> j.newPath in s.fs.names
  {
    RunExists(j, Start(fs), events);
  }

  /** With the destination free, a source that is missing is an error and one of another kind is not supported. */
  lemma OtherErrors(j: Job, fs: FileSystem, id: Id)
    requires j.newPath !in fs.names
    ensures j.oldPath !in fs.names ==>
              Run(j, Start(fs), [Own(Go, id), Own(Go, id)]) == State(fs, Done(Failed), false, false)
    ensures j.oldPath in fs.names && fs.names[j.oldPath] in fs.kinds && fs.kinds[fs.names[j.oldPath]].Special? ==>
              Run(j, Start(fs), [Own(Go, id), Own(Go, id)]) == State(fs, Done(Unsupported), false, false)
  {
    var go := Own(Go, id);
    assert [go, go][1..] == [go] && [go][1..] == [];
    var s1 := Next(j, Start(fs), go);
    assert s1 == Start(fs).(pc := LookAtOld);
    assert Run(j, Start(fs), [go, go]) == Run(j, s1, [go]) == Run(j, Next(j, s1, go), []);
  }

  // ----- taking back what was reserved

  lemma RunTwo(j: Job, s: State, a: Event, b: Event)
    ensures Run(j, s, [a, b]) == Next(j, Next(j, s, a), b)
  {
    assert [a, b][1..] == [b] && [b][1..] == [];
    assert Run(j, s, [a, b]) == Run(j, Next(j, s, a), [b]) == Run(j, Next(j, Next(j, s, a), b), []);
  }

  /** Where the old name cannot be removed, the link made for it is. */
  lemma LinkTakenBack(j: Job, s: State, id: Id)
    requires s.pc == DropOld && j.newPath in s.fs.names && !IsDirectory(s.fs, s.fs.names[j.newPath])
    ensures Run(j, s, [Own(Fail, id), Own(Go, id)])
         == s.(fs := s.fs.(names := s.fs.names - {j.newPath}), pc := Done(Failed), held := false)
  {
    RunTwo(j, s, Own(Fail, id), Own(Go, id));
  }

  /** Where a directory cannot be renamed, the one that reserves its name is removed. */
  lemma DirectoryTakenBack(j: Job, s: State, id: Id)
    requires s.pc in {RenameOver(false), RenameOver(true)}
    requires j.newPath in s.fs.names && IsEmptyDirectory(s.fs, s.fs.names[j.newPath])
    ensures Run(j, s, [Own(Fail, id), Own(Go, id)])
         == s.(fs := s.fs.(names := s.fs.names - {j.newPath}), pc := Done(Failed), held := false)
  {
    RunTwo(j, s, Own(Fail, id), Own(Go, id));
  }

  /** Where rename(2) itself does not take the directory that reserves the name, it is tried once more without it. */
  lemma TriedOnceMore(j: Job, s: State, names: map<Name, Id>, x: Id, id: Id)
    requires s.pc == RenameOver(true) && s.fs.names == names[j.newPath := id] && j.newPath !in names
    requires IsDirectory(s.fs, id) && id !in s.fs.filled
    requires j.oldPath != j.newPath && j.oldPath in names && names[j.oldPath] == x
    ensures var go := Own(Go, id);
            var t := Run(j, s, [Own(FailExists, id)] + [go, go, go, go]);
            t.pc == Done(Renamed) && t.fs.names == (names - {j.oldPath})[j.newPath := x]
  {
    var go := Own(Go, id);
    var over := Own(FailExists, id);
    assert Run(j, s, [over]) == Next(j, s, over) by {
      assert [over][1..] == [];
    }
    RunTwice(j, s, [over], [go, go, go, go]);
    ReservationDropped(j, Next(j, s, over), names, x, id);
  }
}
