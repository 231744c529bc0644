/** Any number of processes moving items into one FreeDesktop.org trash directory (moveIntoFreedesktopTrash,
    vfs/trash_xdg.go). Each system call is one atomic step; between any two of them other processes may run. */
module Trash {
  import opened Base

  type Item = nat
  type ProcessId = nat

  /** A path outside the trash directory. */
  type Source = string

  /** An entry of files/ or of info/. */
  type Name = string

  datatype Owner = Earlier | By(id: ProcessId)

  /** An entry of info/: who made it and, once it is written, the path it records. */
  datatype Info = Info(owner: Owner, path: Option<Source>)

  datatype Outcome = Moved | Cancelled | Failed | NoNameLeft

  /** What a process does next; Undo removes its info entry and then ends or tries the next name. */
  datatype Pc =
    | Loop | StatFile | StatInfo | Create | Write | CheckAgain | Rename
    | Undo(after: Option<Outcome>) | Done(outcome: Outcome)

  datatype Process = Process(source: Source, base: Name, suffix: nat, pc: Pc)

  /** leaks: the processes one of whose removals failed. */
  datatype State = State(
    sources: map<Source, Item>,
    files: map<Name, Item>,
    infos: map<Name, Info>,
    procs: map<ProcessId, Process>,
    leaks: set<ProcessId>)

  /** What the world lets a step do: go on, fail, report an existing destination, or find the caller gone. */
  datatype Choice = Go | Fail | Exists | Cancel

  const MAX_SUFFIX: nat := 100000

  function Decimal(n: nat): string {
    (if n < 10 then "" else Decimal(n / 10)) + ["0123456789"[n % 10]]
  }

  /** The name a process tries: the base name, then with .1, .2 and so on. */
  function NameOf(p: Process): Name {
    if p.suffix == 0 then p.base else p.base + "." + Decimal(p.suffix)
  }

  function InfoOf(p: Process): Name {
    NameOf(p) + ".trashinfo"
  }

  function At(s: State, id: ProcessId, pc: Pc): State
    requires id in s.procs
  {
    s.(procs := s.procs[id := s.procs[id].(pc := pc)])
  }

  /** continue */
  function Retry(s: State, id: ProcessId): State
    requires id in s.procs
  {
    s.(procs := s.procs[id := s.procs[id].(pc := Loop, suffix := s.procs[id].suffix + 1)])
  }

  /** trashRenameNoReplace: moves the source in one step, or fails without effect. */
  function RenameStep(s: State, id: ProcessId, c: Choice): State
    requires id in s.procs
  {
    var p := s.procs[id];
    if c == Exists || (c == Go && NameOf(p) in s.files) then At(s, id, Undo(None))
    else if c != Go || p.source !in s.sources then At(s, id, Undo(Some(Failed)))
    else
      At(s.(files := s.files[NameOf(p) := s.sources[p.source]], sources := s.sources - {p.source}), id, Done(Moved))
  }

  /** The removal of the own info entry, which may fail and is not checked. */
  function UndoStep(s: State, id: ProcessId, c: Choice, after: Option<Outcome>): State
    requires id in s.procs
  {
    var left :=
      if c == Fail then s.(leaks := s.leaks + {id}) else s.(infos := s.infos - {InfoOf(s.procs[id])});
    match after
    case None => Retry(left, id)
    case Some(outcome) => At(left, id, Done(outcome))
  }

  /** Up to the reservation: a name that is taken, or cannot be looked up, is given up for the next one. */
  function LookNext(s: State, p: Process, c: Choice): Process {
    match p.pc
    case Loop =>
      p.(pc := if p.suffix >= MAX_SUFFIX then Done(NoNameLeft) else if c == Cancel then Done(Cancelled) else StatFile)
    case StatFile =>
      if NameOf(p) in s.files || c == Fail then p.(pc := Loop, suffix := p.suffix + 1) else p.(pc := StatInfo)
    case StatInfo =>
      if InfoOf(p) in s.infos || c == Fail then p.(pc := Loop, suffix := p.suffix + 1) else p.(pc := Create)
    case _ => p
  }

  function LookStep(s: State, id: ProcessId, c: Choice): State
    requires id in s.procs
  {
    s.(procs := s.procs[id := LookNext(s, s.procs[id], c)])
  }

  /** trashWriteExclusive: makes the info entry unless there is one, then writes it. */
  function WriteStep(s: State, id: ProcessId, c: Choice): State
    requires id in s.procs
  {
    var p := s.procs[id];
    match p.pc
    case Create =>
      if InfoOf(p) in s.infos then Retry(s, id)
      else if c == Fail then At(s, id, Done(Failed))
      else At(s.(infos := s.infos[InfoOf(p) := Info(By(id), None)]), id, Write)
    case Write =>
      if c == Fail then At(s, id, Undo(Some(Failed)))
      else At(s.(infos := s.infos[InfoOf(p) := Info(By(id), Some(p.source))]), id, CheckAgain)
    case _ => s
  }

  /** One step of one process. */
  function Next(s: State, id: ProcessId, c: Choice): State
    requires id in s.procs
  {
    match s.procs[id].pc
    case Loop => LookStep(s, id, c)
    case StatFile => LookStep(s, id, c)
    case StatInfo => LookStep(s, id, c)
    case Create => WriteStep(s, id, c)
    case Write => WriteStep(s, id, c)
    case CheckAgain => At(s, id, if c == Cancel then Undo(Some(Cancelled)) else Rename)
    case Rename => RenameStep(s, id, c)
    case Undo(after) => UndoStep(s, id, c, after)
    case Done(_) => s
  }

  /** A schedule: which process moves next and what it meets. Entries for unknown processes do nothing. */
  function Run(s: State, schedule: seq<(ProcessId, Choice)>): State
    decreases |schedule|
  {
    if schedule == [] then s
    else
      var (id, c) := schedule[0];
      Run(if id in s.procs then Next(s, id, c) else s, schedule[1..])
  }

  /** Any trash directory, any sources, any processes about to start. */
  predicate Init(s: State) {
    && (forall m :: m in s.infos ==> s.infos[m].owner == Earlier)
    && (forall id :: id in s.procs ==> s.procs[id].pc == Loop && s.procs[id].suffix == 0)
    && s.leaks == {}
  }

  // ----- the invariant

  /** Whether the info entry of the current name is the process's own, and written. */
  predicate Holds(pc: Pc) {
    pc.Write? || pc.CheckAgain? || pc.Rename? || pc.Undo? || pc == Done(Moved)
  }

  predicate Written(pc: Pc) {
    pc.CheckAgain? || pc.Rename? || pc == Done(Moved)
  }

  predicate HoldsInfo(s: State, id: ProcessId)
    requires id in s.procs
  {
    var p := s.procs[id];
    && p.pc != Undo(Some(Moved))
    && (Holds(p.pc) ==>
          && InfoOf(p) in s.infos && s.infos[InfoOf(p)].owner == By(id)
          && (Written(p.pc) ==> s.infos[InfoOf(p)].path == Some(p.source)))
  }

  predicate MovedItem(start: State, s: State, id: ProcessId)
    requires id in s.procs
  {
    var p := s.procs[id];
    p.pc == Done(Moved) ==>
      && p.source in start.sources && p.source !in s.sources
      && NameOf(p) !in start.files && NameOf(p) in s.files
      && s.files[NameOf(p)] == start.sources[p.source]
  }

  /** An info entry is one from before, or its maker's current one, or a leftover of a failed removal. */
  predicate IsAccounted(start: State, s: State, m: Name)
    requires m in s.infos
  {
    if m in start.infos then s.infos[m] == start.infos[m]
    else
      && s.infos[m].owner.By? && s.infos[m].owner.id in s.procs
      && var id := s.infos[m].owner.id; (m == InfoOf(s.procs[id]) && Holds(s.procs[id].pc)) || id in s.leaks
  }

  predicate IsMover(s: State, id: ProcessId, n: Name) {
    id in s.procs && s.procs[id].pc == Done(Moved) && NameOf(s.procs[id]) == n
  }

  predicate IsTaker(s: State, id: ProcessId, source: Source) {
    id in s.procs && s.procs[id].pc == Done(Moved) && s.procs[id].source == source
  }

  ghost predicate InfosInv(start: State, s: State) {
    && (forall m :: m in start.infos ==> start.infos[m].owner == Earlier && m in s.infos)
    && (forall m :: m in s.infos ==> IsAccounted(start, s, m))
  }

  ghost predicate ProcsInv(start: State, s: State) {
    forall id :: id in s.procs ==> HoldsInfo(s, id) && MovedItem(start, s, id)
  }

  ghost predicate FilesInv(start: State, s: State) {
    && (forall n :: n in start.files ==> n in s.files && s.files[n] == start.files[n])
    && (forall n :: n in s.files && n !in start.files ==> exists id :: IsMover(s, id, n))
  }

  ghost predicate SourcesInv(start: State, s: State) {
    && (forall x :: x in s.sources ==> x in start.sources && s.sources[x] == start.sources[x])
    && (forall x :: x in start.sources && x !in s.sources ==> exists id :: IsTaker(s, id, x))
  }

  ghost predicate Inv(start: State, s: State) {
    InfosInv(start, s) && ProcsInv(start, s) && FilesInv(start, s) && SourcesInv(start, s)
  }

  lemma InitInv(start: State)
    requires Init(start)
    ensures Inv(start, start)
  {
  }

  ghost predicate MoversStay(s: State, t: State) {
    forall id :: id in s.procs && s.procs[id].pc == Done(Moved) ==> id in t.procs && t.procs[id] == s.procs[id]
  }

  lemma FilesStay(start: State, s: State, t: State)
    requires FilesInv(start, s) && t.files == s.files && MoversStay(s, t)
    ensures FilesInv(start, t)
  {
    forall n | n in t.files && n !in start.files
      ensures exists i :: IsMover(t, i, n)
    {
      var i :| IsMover(s, i, n);
      assert IsMover(t, i, n);
    }
  }

  lemma SourcesStay(start: State, s: State, t: State)
    requires SourcesInv(start, s) && t.sources == s.sources && MoversStay(s, t)
    ensures SourcesInv(start, t)
  {
    forall x | x in start.sources && x !in t.sources
      ensures exists i :: IsTaker(t, i, x)
    {
      var i :| IsTaker(s, i, x);
      assert IsTaker(t, i, x);
    }
  }

  /** A process step that keeps what the process holds. */
  predicate KeepsHold(p: Process, next: Process) {
    && p.pc != Done(Moved) && next.pc != Done(Moved) && next.pc != Undo(Some(Moved)) && next.source == p.source
    && (Holds(p.pc) <==> Holds(next.pc)) && (Written(next.pc) ==> Written(p.pc))
    && (Holds(next.pc) ==> InfoOf(next) == InfoOf(p))
  }

  /** A step that touches only the process itself and keeps what it holds. */
  lemma OwnStepInv(start: State, s: State, id: ProcessId, next: Process)
    requires Inv(start, s) && id in s.procs && KeepsHold(s.procs[id], next)
    ensures Inv(start, s.(procs := s.procs[id := next]))
  {
    hide FilesInv, SourcesInv;
    var t := s.(procs := s.procs[id := next]);
    FilesStay(start, s, t);
    SourcesStay(start, s, t);
    forall m | m in t.infos
      ensures IsAccounted(start, t, m)
    {
      assert IsAccounted(start, s, m);
    }
    forall i | i in t.procs
      ensures HoldsInfo(t, i) && MovedItem(start, t, i)
    {
      assert HoldsInfo(s, i) && MovedItem(start, s, i);
    }
  }

  /** Two processes never hold the same info entry. */
  lemma InfosApart(start: State, s: State, a: ProcessId, b: ProcessId)
    requires ProcsInv(start, s) && a in s.procs && b in s.procs && a != b
    requires Holds(s.procs[a].pc) && Holds(s.procs[b].pc)
    ensures InfoOf(s.procs[a]) != InfoOf(s.procs[b])
  {
    assert HoldsInfo(s, a) && HoldsInfo(s, b);
  }

  /** The entry a process holds was not there at the start. */
  lemma HeldIsNew(start: State, s: State, id: ProcessId)
    requires ProcsInv(start, s) && InfosInv(start, s) && id in s.procs
    requires Holds(s.procs[id].pc) || InfoOf(s.procs[id]) !in s.infos
    ensures InfoOf(s.procs[id]) !in start.infos
  {
    assert HoldsInfo(s, id);
    if InfoOf(s.procs[id]) in s.infos {
      assert IsAccounted(start, s, InfoOf(s.procs[id]));
    }
  }

  /** What only the named process's own entry changes in info/. */
  ghost predicate SameElsewhere(s: State, t: State, m0: Name) {
    forall m :: m != m0 ==> (m in t.infos <==> m in s.infos) && (m in s.infos ==> t.infos[m] == s.infos[m])
  }

  /** Changing the own info entry leaves what other processes hold. */
  lemma OthersHold(start: State, s: State, t: State, id: ProcessId, i: ProcessId)
    requires ProcsInv(start, s) && id in s.procs && i in s.procs && i != id && i in t.procs && t.procs[i] == s.procs[i]
    requires Holds(s.procs[id].pc) || InfoOf(s.procs[id]) !in s.infos
    requires SameElsewhere(s, t, InfoOf(s.procs[id]))
    ensures HoldsInfo(t, i)
  {
    assert HoldsInfo(s, i);
    if Holds(s.procs[i].pc) && Holds(s.procs[id].pc) {
      InfosApart(start, s, i, id);
    }
  }

  /** Making the info entry, or writing it. */
  lemma InfoStepInv(start: State, s: State, id: ProcessId, path: Option<Source>, pc: Pc)
    requires Inv(start, s) && id in s.procs && IsInfoStep(s, id, path, pc)
    ensures Inv(start, InfoStep(s, id, path, pc))
  {
    hide FilesInv, SourcesInv, InfosInv, ProcsInv;
    FilesStay(start, s, InfoStep(s, id, path, pc));
    SourcesStay(start, s, InfoStep(s, id, path, pc));
    InfoStepInfos(start, s, id, path, pc);
    InfoStepProcs(start, s, id, path, pc);
  }

  predicate IsInfoStep(s: State, id: ProcessId, path: Option<Source>, pc: Pc)
    requires id in s.procs
  {
    || (s.procs[id].pc == Create && InfoOf(s.procs[id]) !in s.infos && pc == Write)
    || (s.procs[id].pc == Write && pc == CheckAgain && path == Some(s.procs[id].source))
  }

  function InfoStep(s: State, id: ProcessId, path: Option<Source>, pc: Pc): State
    requires id in s.procs
  {
    At(s.(infos := s.infos[InfoOf(s.procs[id]) := Info(By(id), path)]), id, pc)
  }

  lemma InfoStepInfos(start: State, s: State, id: ProcessId, path: Option<Source>, pc: Pc)
    requires InfosInv(start, s) && ProcsInv(start, s) && id in s.procs && IsInfoStep(s, id, path, pc)
    ensures InfosInv(start, InfoStep(s, id, path, pc))
  {
    var t := InfoStep(s, id, path, pc);
    HeldIsNew(start, s, id);
    forall m | m in t.infos
      ensures IsAccounted(start, t, m)
    {
      if m != InfoOf(s.procs[id]) {
        assert IsAccounted(start, s, m);
      }
    }
  }

  lemma InfoStepProcs(start: State, s: State, id: ProcessId, path: Option<Source>, pc: Pc)
    requires ProcsInv(start, s) && id in s.procs && IsInfoStep(s, id, path, pc)
    ensures ProcsInv(start, InfoStep(s, id, path, pc))
  {
    var t := InfoStep(s, id, path, pc);
    forall i | i in t.procs
      ensures HoldsInfo(t, i) && MovedItem(start, t, i)
    {
      assert MovedItem(start, s, i);
      if i != id {
        OthersHold(start, s, t, id, i);
      }
    }
  }

  lemma UndoInv(start: State, s: State, id: ProcessId, c: Choice, after: Option<Outcome>)
    requires Inv(start, s) && id in s.procs && s.procs[id].pc == Undo(after) && after != Some(Moved)
    ensures Inv(start, UndoStep(s, id, c, after))
  {
    var t := UndoStep(s, id, c, after);
    FilesStay(start, s, t);
    SourcesStay(start, s, t);
    UndoInfos(start, s, id, c, after);
    UndoProcs(start, s, id, c, after);
  }

  lemma UndoInfos(start: State, s: State, id: ProcessId, c: Choice, after: Option<Outcome>)
    requires InfosInv(start, s) && ProcsInv(start, s)
    requires id in s.procs && s.procs[id].pc == Undo(after) && after != Some(Moved)
    ensures InfosInv(start, UndoStep(s, id, c, after))
  {
    var t := UndoStep(s, id, c, after);
    assert HoldsInfo(s, id);
    HeldIsNew(start, s, id);
    forall m | m in t.infos
      ensures IsAccounted(start, t, m)
    {
      assert IsAccounted(start, s, m);
    }
  }

  lemma UndoProcs(start: State, s: State, id: ProcessId, c: Choice, after: Option<Outcome>)
    requires ProcsInv(start, s) && id in s.procs && s.procs[id].pc == Undo(after) && after != Some(Moved)
    ensures ProcsInv(start, UndoStep(s, id, c, after))
  {
    var t := UndoStep(s, id, c, after);
    forall i | i in t.procs
      ensures HoldsInfo(t, i) && MovedItem(start, t, i)
    {
      assert MovedItem(start, s, i);
      if i != id {
        OthersHold(start, s, t, id, i);
      }
    }
  }

  lemma MoveInv(start: State, s: State, id: ProcessId)
    requires Inv(start, s) && id in s.procs && s.procs[id].pc == Rename
    requires NameOf(s.procs[id]) !in s.files && s.procs[id].source in s.sources
    ensures Inv(start, RenameStep(s, id, Go))
  {
    MovedFiles(start, s, id);
    MovedSources(start, s, id);
    MovedInfos(start, s, id);
    MovedProcs(start, s, id);
  }

  lemma MovedInfos(start: State, s: State, id: ProcessId)
    requires InfosInv(start, s) && id in s.procs && s.procs[id].pc == Rename
    requires NameOf(s.procs[id]) !in s.files && s.procs[id].source in s.sources
    ensures InfosInv(start, RenameStep(s, id, Go))
  {
    DoneInfos(start, s, RenameStep(s, id, Go), id);
  }

  lemma MovedProcs(start: State, s: State, id: ProcessId)
    requires ProcsInv(start, s) && FilesInv(start, s) && SourcesInv(start, s)
    requires id in s.procs && s.procs[id].pc == Rename
    requires NameOf(s.procs[id]) !in s.files && s.procs[id].source in s.sources
    ensures ProcsInv(start, RenameStep(s, id, Go))
  {
    hide HoldsInfo, MovedItem, FilesInv, SourcesInv;
    forall i | i in s.procs
      ensures HoldsInfo(RenameStep(s, id, Go), i) && MovedItem(start, RenameStep(s, id, Go), i)
    {
      if i == id {
        MovedSelf(start, s, id);
      } else {
        MovedOther(start, s, id, i);
      }
    }
  }

  /** Info entries stay accounted for when the process that holds one is done. */
  lemma DoneInfos(start: State, s: State, t: State, id: ProcessId)
    requires InfosInv(start, s) && id in s.procs && Holds(s.procs[id].pc)
    requires t.infos == s.infos && t.leaks == s.leaks && t.procs == s.procs[id := s.procs[id].(pc := Done(Moved))]
    ensures InfosInv(start, t)
  {
    forall m | m in t.infos
      ensures IsAccounted(start, t, m)
    {
      assert IsAccounted(start, s, m);
    }
  }

  lemma Renamed(s: State, id: ProcessId)
    requires id in s.procs && NameOf(s.procs[id]) !in s.files && s.procs[id].source in s.sources
    ensures var p, t := s.procs[id], RenameStep(s, id, Go);
            && t.files == s.files[NameOf(p) := s.sources[p.source]] && t.sources == s.sources - {p.source}
            && t.infos == s.infos && t.procs == s.procs[id := p.(pc := Done(Moved))]
  {
  }

  lemma MovedSelf(start: State, s: State, id: ProcessId)
    requires ProcsInv(start, s) && FilesInv(start, s) && SourcesInv(start, s)
    requires id in s.procs && s.procs[id].pc == Rename
    requires NameOf(s.procs[id]) !in s.files && s.procs[id].source in s.sources
    ensures HoldsInfo(RenameStep(s, id, Go), id) && MovedItem(start, RenameStep(s, id, Go), id)
  {
    hide RenameStep, IsMover, IsTaker;
    Renamed(s, id);
    assert HoldsInfo(s, id);
  }

  lemma MovedOther(start: State, s: State, id: ProcessId, i: ProcessId)
    requires ProcsInv(start, s) && id in s.procs && i in s.procs && i != id
    requires NameOf(s.procs[id]) !in s.files && s.procs[id].source in s.sources
    ensures HoldsInfo(RenameStep(s, id, Go), i) && MovedItem(start, RenameStep(s, id, Go), i)
  {
    hide RenameStep;
    Renamed(s, id);
    assert HoldsInfo(s, i) && MovedItem(start, s, i);
  }

  lemma MovedFiles(start: State, s: State, id: ProcessId)
    requires FilesInv(start, s) && id in s.procs && s.procs[id].pc == Rename
    requires NameOf(s.procs[id]) !in s.files && s.procs[id].source in s.sources
    ensures FilesInv(start, RenameStep(s, id, Go))
  {
    var t := RenameStep(s, id, Go);
    forall n | n in t.files && n !in start.files
      ensures exists i :: IsMover(t, i, n)
    {
      if n == NameOf(s.procs[id]) {
        assert IsMover(t, id, n);
      } else {
        var i :| IsMover(s, i, n);
        assert IsMover(t, i, n);
      }
    }
  }

  lemma MovedSources(start: State, s: State, id: ProcessId)
    requires SourcesInv(start, s) && id in s.procs && s.procs[id].pc == Rename
    requires NameOf(s.procs[id]) !in s.files && s.procs[id].source in s.sources
    ensures SourcesInv(start, RenameStep(s, id, Go))
  {
    var t := RenameStep(s, id, Go);
    forall x | x in start.sources && x !in t.sources
      ensures exists i :: IsTaker(t, i, x)
    {
      if x == s.procs[id].source {
        assert IsTaker(t, id, x);
      } else {
        var i :| IsTaker(s, i, x);
        assert IsTaker(t, i, x);
      }
    }
  }

  lemma LookInv(start: State, s: State, id: ProcessId, c: Choice)
    requires Inv(start, s) && id in s.procs
    requires s.procs[id].pc.Loop? || s.procs[id].pc.StatFile? || s.procs[id].pc.StatInfo?
    ensures Inv(start, LookStep(s, id, c))
  {
    hide Inv;
    OwnStepInv(start, s, id, LookNext(s, s.procs[id], c));
  }

  lemma WriteInv(start: State, s: State, id: ProcessId, c: Choice)
    requires Inv(start, s) && id in s.procs && (s.procs[id].pc.Create? || s.procs[id].pc.Write?)
    ensures Inv(start, WriteStep(s, id, c))
  {
    hide Inv;
    var p := s.procs[id];
    if p.pc == Create && InfoOf(p) !in s.infos && c != Fail {
      InfoStepInv(start, s, id, None, Write);
    } else if p.pc == Write && c != Fail {
      InfoStepInv(start, s, id, Some(p.source), CheckAgain);
    } else {
      OwnStepInv(start, s, id, WriteStep(s, id, c).procs[id]);
    }
  }

  lemma RenameInv(start: State, s: State, id: ProcessId, c: Choice)
    requires Inv(start, s) && id in s.procs && s.procs[id].pc == Rename
    ensures Inv(start, RenameStep(s, id, c))
  {
    hide Inv;
    var p := s.procs[id];
    if c == Go && NameOf(p) !in s.files && p.source in s.sources {
      MoveInv(start, s, id);
    } else {
      OwnStepInv(start, s, id, RenameStep(s, id, c).procs[id]);
    }
  }

  lemma UndoFails(start: State, s: State, id: ProcessId)
    requires Inv(start, s) && id in s.procs
    ensures s.procs[id].pc != Undo(Some(Moved))
  {
    assert HoldsInfo(s, id);
  }

  lemma NextInv(start: State, s: State, id: ProcessId, c: Choice)
    requires Inv(start, s) && id in s.procs
    ensures Inv(start, Next(s, id, c))
  {
    hide Inv;
    UndoFails(start, s, id);
    match s.procs[id].pc
    case Loop => LookInv(start, s, id, c);
    case StatFile => LookInv(start, s, id, c);
    case StatInfo => LookInv(start, s, id, c);
    case Create => WriteInv(start, s, id, c);
    case Write => WriteInv(start, s, id, c);
    case CheckAgain => OwnStepInv(start, s, id, Next(s, id, c).procs[id]);
    case Rename => RenameInv(start, s, id, c);
    case Undo(after) => UndoInv(start, s, id, c, after);
    case Done(_) =>
  }

  lemma {:induction false} RunInv(start: State, s: State, schedule: seq<(ProcessId, Choice)>)
    requires Inv(start, s)
    ensures Inv(start, Run(s, schedule))
    decreases |schedule|
  {
    if schedule != [] {
      var (id, c) := schedule[0];
      if id in s.procs {
        NextInv(start, s, id, c);
        RunInv(start, Next(s, id, c), schedule[1..]);
      } else {
        RunInv(start, s, schedule[1..]);
      }
    }
  }

  // ----- what holds at every step of every run

  /** Nothing that was in files/ or info/ at the start is ever gone or changed. */
  lemma NothingOverwritten(start: State, schedule: seq<(ProcessId, Choice)>)
    requires Init(start)
    ensures var s := Run(start, schedule);
            && (forall n :: n in start.files ==> n in s.files && s.files[n] == start.files[n])
            && (forall m :: m in start.infos ==> m in s.infos && s.infos[m] == start.infos[m])
  {
    InitInv(start);
    RunInv(start, start, schedule);
    var s := Run(start, schedule);
    forall m | m in start.infos
      ensures m in s.infos && s.infos[m] == start.infos[m]
    {
      assert IsAccounted(start, s, m);
    }
  }

  /** No two processes succeed with the same name. */
  lemma NamesApart(start: State, schedule: seq<(ProcessId, Choice)>, a: ProcessId, b: ProcessId)
    requires Init(start) && a in start.procs && b in start.procs && a != b
    ensures var procs := Run(start, schedule).procs;
            && a in procs && b in procs
            && (procs[a].pc == procs[b].pc == Done(Moved) ==> NameOf(procs[a]) != NameOf(procs[b]))
  {
    InitInv(start);
    RunInv(start, start, schedule);
    var s := Run(start, schedule);
    RunSame(start, schedule, a);
    RunSame(start, schedule, b);
    if s.procs[a].pc == s.procs[b].pc == Done(Moved) {
      InfosApart(start, s, a, b);
    }
  }

  predicate SameProcess(s: State, t: State, a: ProcessId) {
    a in s.procs && a in t.procs && t.procs[a].source == s.procs[a].source && t.procs[a].base == s.procs[a].base
  }

  lemma OthersSame(s: State, t: State, id: ProcessId, next: Process, a: ProcessId)
    requires id in s.procs && a in s.procs && t.procs == s.procs[id := next]
    requires next.source == s.procs[id].source && next.base == s.procs[id].base
    ensures SameProcess(s, t, a)
  {
  }

  lemma NextSame(s: State, id: ProcessId, c: Choice, a: ProcessId)
    requires id in s.procs && a in s.procs
    ensures SameProcess(s, Next(s, id, c), a)
  {
    var p := s.procs[id];
    if p.pc.Loop? || p.pc.StatFile? || p.pc.StatInfo? {
      OthersSame(s, LookStep(s, id, c), id, LookNext(s, p, c), a);
    } else if p.pc.Create? || p.pc.Write? {
      WriteSame(s, id, c, a);
    } else if p.pc.Rename? {
      RenameSame(s, id, c, a);
    } else if p.pc.Undo? {
      UndoSame(s, id, c, p.pc.after, a);
    }
  }

  lemma UndoSame(s: State, id: ProcessId, c: Choice, after: Option<Outcome>, a: ProcessId)
    requires id in s.procs && a in s.procs
    ensures SameProcess(s, UndoStep(s, id, c, after), a)
  {
  }

  lemma WriteSame(s: State, id: ProcessId, c: Choice, a: ProcessId)
    requires id in s.procs && a in s.procs
    ensures SameProcess(s, WriteStep(s, id, c), a)
  {
  }

  lemma RenameSame(s: State, id: ProcessId, c: Choice, a: ProcessId)
    requires id in s.procs && a in s.procs
    ensures SameProcess(s, RenameStep(s, id, c), a)
  {
  }

  /** A process keeps its source and base name through a run. */
  lemma {:induction false} RunSame(s: State, schedule: seq<(ProcessId, Choice)>, a: ProcessId)
    requires a in s.procs
    ensures SameProcess(s, Run(s, schedule), a)
    decreases |schedule|
  {
    if schedule != [] {
      var (id, c) := schedule[0];
      if id in s.procs {
        NextSame(s, id, c, a);
        RunSame(Next(s, id, c), schedule[1..], a);
      } else {
        RunSame(s, schedule[1..], a);
      }
    }
  }

  /** Whether the trash entry n is one a process moved there, with the written info entry that names its origin. */
  predicate HasItsInfo(start: State, s: State, n: Name, id: ProcessId) {
    && id in s.procs && s.procs[id].pc == Done(Moved) && NameOf(s.procs[id]) == n
    && n + ".trashinfo" in s.infos && s.infos[n + ".trashinfo"] == Info(By(id), Some(s.procs[id].source))
    && s.procs[id].source in start.sources && n in s.files && s.files[n] == start.sources[s.procs[id].source]
  }

  /** Every item moved into files/ has its matching info entry. */
  lemma MovedHasInfo(start: State, schedule: seq<(ProcessId, Choice)>, n: Name) returns (id: ProcessId)
    requires Init(start) && n in Run(start, schedule).files && n !in start.files
    ensures HasItsInfo(start, Run(start, schedule), n, id)
  {
    InitInv(start);
    RunInv(start, start, schedule);
    var s := Run(start, schedule);
    id :| IsMover(s, id, n);
    assert HoldsInfo(s, id) && MovedItem(start, s, id);
  }

  /** A process that succeeds has moved its source under its name, with the matching info entry. */
  lemma SuccessMoves(start: State, schedule: seq<(ProcessId, Choice)>, id: ProcessId)
    requires Init(start)
    requires var p := Run(start, schedule).procs; id in p && p[id].pc == Done(Moved)
    ensures var s := Run(start, schedule);
            && HasItsInfo(start, s, NameOf(s.procs[id]), id) && NameOf(s.procs[id]) !in start.files
            && s.procs[id].source !in s.sources
  {
    InitInv(start);
    RunInv(start, start, schedule);
    var s := Run(start, schedule);
    assert HoldsInfo(s, id) && MovedItem(start, s, id);
  }

  lemma RunOne(s: State, id: ProcessId, c: Choice, rest: seq<(ProcessId, Choice)>)
    requires id in s.procs
    ensures Run(s, [(id, c)] + rest) == Run(Next(s, id, c), rest)
  {
    assert ([(id, c)] + rest)[1..] == rest;
  }

  /** n steps of one process that all go through. */
  function Going(id: ProcessId, n: nat): seq<(ProcessId, Choice)> {
    if n == 0 then [] else [(id, Go)] + Going(id, n - 1)
  }

  /** A process that nothing stands in the way of succeeds, with the base name of its item. */
  lemma UnobstructedMoves(start: State, id: ProcessId)
    requires Init(start) && id in start.procs && start.procs[id].source in start.sources
    requires start.procs[id].base !in start.files && start.procs[id].base + ".trashinfo" !in start.infos
    ensures var s := Run(start, Going(id, 7));
            id in s.procs && s.procs[id].pc == Done(Moved) && NameOf(s.procs[id]) == start.procs[id].base
  {
    var p := start.procs[id];
    assert NameOf(p) == p.base;
    var s1 := Next(start, id, Go);
    RunOne(start, id, Go, Going(id, 6));
    assert s1.procs[id] == p.(pc := StatFile);
    var s2 := Next(s1, id, Go);
    RunOne(s1, id, Go, Going(id, 5));
    assert s2.procs[id] == p.(pc := StatInfo);
    var s3 := Next(s2, id, Go);
    RunOne(s2, id, Go, Going(id, 4));
    assert s3.procs[id] == p.(pc := Create);
    ReservedMoves(s3, id);
  }

  lemma ReservedMoves(s: State, id: ProcessId)
    requires id in s.procs && s.procs[id].pc == Create && s.procs[id].suffix == 0 && s.procs[id].source in s.sources
    requires s.procs[id].base !in s.files && s.procs[id].base + ".trashinfo" !in s.infos
    ensures var t := Run(s, Going(id, 4));
            id in t.procs && t.procs[id].pc == Done(Moved) && NameOf(t.procs[id]) == s.procs[id].base
  {
    hide Run;
    var p := s.procs[id];
    var s1 := Next(s, id, Go);
    RunOne(s, id, Go, Going(id, 3));
    assert s1.procs[id] == p.(pc := Write);
    var s2 := Next(s1, id, Go);
    RunOne(s1, id, Go, Going(id, 2));
    assert s2.procs[id] == p.(pc := CheckAgain);
    var s3 := Next(s2, id, Go);
    RunOne(s2, id, Go, Going(id, 1));
    assert s3.procs[id] == p.(pc := Rename);
    var s4 := Next(s3, id, Go);
    RunOne(s3, id, Go, Going(id, 0));
    assert s4.procs[id] == p.(pc := Done(Moved));
    RunNone(s4);
  }

  lemma RunNone(s: State)
    ensures Run(s, []) == s
  {
  }

  /** A process that ends with an error has nothing of its own in files/, its source is where it was unless another
      process moved it, and it has no info entry unless a removal of it failed. */
  lemma ErrorLeavesSource(start: State, schedule: seq<(ProcessId, Choice)>, id: ProcessId)
    requires Init(start) && id in start.procs
    requires var p := Run(start, schedule).procs; id in p && p[id].pc.Done? && p[id].pc != Done(Moved)
    ensures var s := Run(start, schedule);
            var source := start.procs[id].source;
            && (forall n :: n in s.files && n !in start.files ==> !HasItsInfo(start, s, n, id))
            && (source in start.sources ==>
                  (source in s.sources && s.sources[source] == start.sources[source])
                  || exists other :: other != id && IsTaker(s, other, source))
            && (id !in s.leaks ==> forall m :: m in s.infos ==> s.infos[m].owner != By(id))
  {
    InitInv(start);
    RunInv(start, start, schedule);
    var s := Run(start, schedule);
    var source := start.procs[id].source;
    if source in start.sources && source !in s.sources {
      var other :| IsTaker(s, other, source);
      assert other != id;
    }
    forall m | m in s.infos && id !in s.leaks
      ensures s.infos[m].owner != By(id)
    {
      assert IsAccounted(start, s, m);
    }
  }

  // ----- every item is in exactly one place

  datatype Place = AtSource(source: Source) | InTrash(name: Name)

  predicate IsAt(s: State, x: Item, place: Place) {
    match place
    case AtSource(source) => source in s.sources && s.sources[source] == x
    case InTrash(name) => name in s.files && s.files[name] == x
  }

  ghost predicate InOnePlace(s: State, x: Item) {
    (exists a :: IsAt(s, x, a)) && forall a, b :: IsAt(s, x, a) && IsAt(s, x, b) ==> a == b
  }

  lemma SamePlaces(s: State, t: State, x: Item)
    requires InOnePlace(s, x) && t.files == s.files && t.sources == s.sources
    ensures InOnePlace(t, x)
  {
    var a :| IsAt(s, x, a);
    assert IsAt(t, x, a);
    assert forall b :: IsAt(t, x, b) ==> IsAt(s, x, b);
  }

  lemma MovedOnePlace(s: State, source: Source, name: Name, t: State, x: Item)
    requires InOnePlace(s, x) && source in s.sources && name !in s.files
    requires t.files == s.files[name := s.sources[source]] && t.sources == s.sources - {source}
    ensures InOnePlace(t, x)
  {
    var a :| IsAt(s, x, a);
    var after := if a == AtSource(source) then InTrash(name) else a;
    assert IsAt(t, x, after);
    forall b | IsAt(t, x, b)
      ensures b == after
    {
      assert IsAt(s, x, if b == InTrash(name) then AtSource(source) else b);
    }
  }

  lemma NextOnePlace(s: State, id: ProcessId, c: Choice, x: Item)
    requires id in s.procs && InOnePlace(s, x)
    ensures InOnePlace(Next(s, id, c), x)
  {
    var p := s.procs[id];
    if Moves(s, id, c) {
      MovedOnePlace(s, p.source, NameOf(p), RenameStep(s, id, c), x);
    } else {
      StaysPut(s, id, c);
      SamePlaces(s, Next(s, id, c), x);
    }
  }

  predicate Moves(s: State, id: ProcessId, c: Choice)
    requires id in s.procs
  {
    var p := s.procs[id];
    p.pc == Rename && c == Go && NameOf(p) !in s.files && p.source in s.sources
  }

  lemma StaysPut(s: State, id: ProcessId, c: Choice)
    requires id in s.procs && !Moves(s, id, c)
    ensures Next(s, id, c).files == s.files && Next(s, id, c).sources == s.sources
  {
    if s.procs[id].pc.Create? || s.procs[id].pc.Write? {
      assert WriteStep(s, id, c).files == s.files && WriteStep(s, id, c).sources == s.sources;
    }
  }

  lemma {:induction false} RunOnePlace(s: State, schedule: seq<(ProcessId, Choice)>, x: Item)
    requires InOnePlace(s, x)
    ensures InOnePlace(Run(s, schedule), x)
    decreases |schedule|
  {
    if schedule != [] {
      var (id, c) := schedule[0];
      if id in s.procs {
        NextOnePlace(s, id, c, x);
        RunOnePlace(Next(s, id, c), schedule[1..], x);
      } else {
        RunOnePlace(s, schedule[1..], x);
      }
    }
  }
}
