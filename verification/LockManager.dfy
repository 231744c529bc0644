/** The lock per archive path (ArchiveLockManager, vfs/vfs.go) under any interleaving of its callers. The manager's
    mutex makes every pass through Lock's loop, every TryLock and every Unlock one step; waiting on a condition parks a
    thread and releases the mutex in one. */
module LockManager {
  type Path = string
  type Thread = nat

  /** busy and conds as in the program; a condition has the threads parked on it. */
  datatype Locks = Locks(busy: map<Path, bool>, conds: map<Path, set<Thread>>)

  const FREE := Locks(map[], map[])

  /** busy[path], false where there is no entry */
  predicate IsBusy(l: Locks, path: Path) { path in l.busy && l.busy[path] }

  function Parked(l: Locks, path: Path): set<Thread> { if path in l.conds then l.conds[path] else {} }

  /** One pass through Lock's loop: the lock is taken, or the thread parks. */
  function Pass(l: Locks, t: Thread, path: Path): Locks {
    if IsBusy(l, path) then l.(conds := l.conds[path := Parked(l, path) + {t}]) else l.(busy := l.busy[path := true])
  }

  function Release(l: Locks, path: Path): Locks {
    Locks(l.busy[path := false], if path in l.conds then l.conds[path := {}] else l.conds)
  }

  predicate SameAt(l: Locks, m: Locks, path: Path) {
    (IsBusy(l, path) <==> IsBusy(m, path)) && Parked(l, path) == Parked(m, path)
  }

  class Manager {
    var busy: map<Path, bool>
    var conds: map<Path, set<Thread>>

    ghost function Current(): Locks
      reads this
    {
      Locks(busy, conds)
    }

    constructor ()
      ensures Current() == FREE
    {
      busy, conds := map[], map[];
    }

    /** The body of Lock's loop, or what follows it. */
    method LockPass(t: Thread, path: Path) returns (taken: bool)
      modifies this
      ensures Current() == Pass(old(Current()), t, path) && taken == !IsBusy(old(Current()), path)
      ensures taken ==> IsBusy(Current(), path) && conds == old(conds)
      ensures !taken ==> busy == old(busy) && Parked(Current(), path) == Parked(old(Current()), path) + {t}
      ensures forall p :: p != path ==> SameAt(old(Current()), Current(), p)
    {
      if path in busy && busy[path] {
        if path !in conds {
          conds := conds[path := {}];
        }
        conds := conds[path := conds[path] + {t}];
        return false;
      }
      busy := busy[path := true];
      taken := true;
    }

    method TryLock(path: Path) returns (taken: bool)
      modifies this
      ensures taken == !IsBusy(old(Current()), path)
      ensures Current() == if taken then Pass(old(Current()), 0, path) else old(Current())
      ensures IsBusy(Current(), path) && conds == old(conds)
      ensures forall p :: p != path ==> SameAt(old(Current()), Current(), p)
    {
      if path in busy && busy[path] {
        return false;
      }
      busy := busy[path := true];
      taken := true;
    }

    method Unlock(path: Path) returns (woken: set<Thread>)
      modifies this
      ensures Current() == Release(old(Current()), path) && woken == Parked(old(Current()), path)
      ensures !IsBusy(Current(), path) && Parked(Current(), path) == {}
      ensures forall p :: p != path ==> SameAt(old(Current()), Current(), p)
    {
      busy := busy[path := false];
      woken := {};
      if path in conds {
        woken := conds[path];
        conds := conds[path := {}];
      }
    }
  }

  // ----- all threads together

  /** What a thread waits for: nothing, a condition, or its next pass after a wake-up. */
  datatype Waiting = Running | OnCondition(path: Path) | Runnable(path: Path)

  datatype State = State(locks: Locks, held: map<Thread, set<Path>>, waiting: map<Thread, Waiting>)

  datatype Event =
    | Lock(t: Thread, path: Path) | TryLock(t: Thread, path: Path) | Unlock(t: Thread, path: Path) | GoOn(t: Thread)

  predicate CanAct(s: State, t: Thread) {
    t in s.held && t in s.waiting && s.waiting[t] == Running
  }

  /** The thread makes a pass through Lock. */
  function PassStep(s: State, t: Thread, path: Path): State
    requires t in s.held
  {
    var locks := Pass(s.locks, t, path);
    if IsBusy(s.locks, path) then s.(locks := locks, waiting := s.waiting[t := OnCondition(path)])
    else s.(locks := locks, held := s.held[t := s.held[t] + {path}], waiting := s.waiting[t := Running])
  }

  /** Unlock by the holder; Broadcast makes every parked thread runnable. */
  function UnlockStep(s: State, t: Thread, path: Path): State
    requires t in s.held
  {
    State(Release(s.locks, path), s.held[t := s.held[t] - {path}],
          map u | u in s.waiting :: if u in Parked(s.locks, path) then Runnable(path) else s.waiting[u])
  }

  function Next(s: State, e: Event): State {
    match e
    case Lock(t, path) => if CanAct(s, t) then PassStep(s, t, path) else s
    case TryLock(t, path) => if CanAct(s, t) && !IsBusy(s.locks, path) then PassStep(s, t, path) else s
    case Unlock(t, path) => if CanAct(s, t) && path in s.held[t] then UnlockStep(s, t, path) else s
    case GoOn(t) =>
      if t in s.held && t in s.waiting && s.waiting[t].Runnable? then PassStep(s, t, s.waiting[t].path) else s
  }

  function Run(s: State, events: seq<Event>): State
    decreases |events|
  {
    if events == [] then s else Run(Next(s, events[0]), events[1..])
  }

  predicate Init(s: State) {
    && s.locks == FREE && s.held.Keys == s.waiting.Keys
    && forall t :: t in s.held ==> s.held[t] == {} && s.waiting[t] == Running
  }

  predicate Holds(s: State, t: Thread, path: Path) { t in s.held && path in s.held[t] }

  /** A path is busy exactly when some thread holds it. */
  ghost predicate BusyIsHeld(s: State, path: Path) {
    IsBusy(s.locks, path) <==> exists t :: Holds(s, t, path)
  }

  ghost predicate Exclusive(s: State) {
    forall t, u, path :: Holds(s, t, path) && Holds(s, u, path) ==> t == u
  }

  /** The threads parked on a path wait on its condition, and nobody is parked on a path that is not busy. */
  predicate ParkedWait(s: State, path: Path) {
    && (forall t :: t in Parked(s.locks, path) ==> t in s.waiting && s.waiting[t] == OnCondition(path))
    && (Parked(s.locks, path) != {} ==> IsBusy(s.locks, path))
  }

  predicate WaiterParked(s: State, t: Thread) {
    t in s.waiting && s.waiting[t].OnCondition? ==> t in Parked(s.locks, s.waiting[t].path)
  }

  ghost predicate ParkedAreWaiting(s: State) {
    (forall path :: ParkedWait(s, path)) && forall t :: WaiterParked(s, t)
  }

  ghost predicate Inv(s: State) {
    && s.held.Keys == s.waiting.Keys && Exclusive(s) && ParkedAreWaiting(s)
    && (forall path :: BusyIsHeld(s, path))
  }

  lemma InitInv(s: State)
    requires Init(s)
    ensures Inv(s)
  {
  }

  lemma PassLocks(l: Locks, t: Thread, path: Path, p: Path)
    ensures Parked(Pass(l, t, path), p) == if p == path && IsBusy(l, path) then Parked(l, p) + {t} else Parked(l, p)
    ensures IsBusy(Pass(l, t, path), p) <==> IsBusy(l, p) || p == path
  {
  }

  lemma ReleaseLocks(l: Locks, path: Path, p: Path)
    ensures Parked(Release(l, path), p) == if p == path then {} else Parked(l, p)
    ensures IsBusy(Release(l, path), p) <==> IsBusy(l, p) && p != path
  {
  }

  lemma HeldAfterPass(s: State, t: Thread, path: Path, u: Thread, p: Path)
    requires t in s.held
    ensures Holds(PassStep(s, t, path), u, p)
        <==> Holds(s, u, p) || (u == t && p == path && !IsBusy(s.locks, path))
  {
  }

  lemma HeldAfterUnlock(s: State, t: Thread, path: Path, u: Thread, p: Path)
    requires t in s.held
    ensures Holds(UnlockStep(s, t, path), u, p) <==> Holds(s, u, p) && !(u == t && p == path)
  {
  }

  lemma BusyAfterPass(s: State, t: Thread, path: Path, p: Path)
    requires Inv(s) && t in s.held
    ensures BusyIsHeld(PassStep(s, t, path), p)
  {
    var after := PassStep(s, t, path);
    assert BusyIsHeld(s, p);
    PassLocks(s.locks, t, path, p);
    forall u
      ensures Holds(after, u, p) <==> Holds(s, u, p) || (u == t && p == path && !IsBusy(s.locks, path))
    {
      HeldAfterPass(s, t, path, u, p);
    }
    if p == path && !IsBusy(s.locks, path) {
      assert Holds(after, t, p);
    }
  }

  lemma BusyAfterUnlock(s: State, t: Thread, path: Path, p: Path)
    requires Inv(s) && Holds(s, t, path)
    ensures BusyIsHeld(UnlockStep(s, t, path), p)
  {
    var after := UnlockStep(s, t, path);
    assert BusyIsHeld(s, p);
    ReleaseLocks(s.locks, path, p);
    assert forall u :: Holds(s, u, path) ==> u == t;
    forall u
      ensures Holds(after, u, p) <==> Holds(s, u, p) && p != path
    {
      HeldAfterUnlock(s, t, path, u, p);
    }
  }

  lemma ParkedAfterPass(s: State, t: Thread, path: Path)
    requires Inv(s) && t in s.held && !s.waiting[t].OnCondition?
    ensures ParkedAreWaiting(PassStep(s, t, path))
  {
    var after := PassStep(s, t, path);
    forall p
      ensures ParkedWait(after, p)
    {
      assert ParkedWait(s, p);
      PassLocks(s.locks, t, path, p);
    }
    forall u
      ensures WaiterParked(after, u)
    {
      assert WaiterParked(s, u);
      if u in s.waiting && s.waiting[u].OnCondition? {
        PassLocks(s.locks, t, path, s.waiting[u].path);
      }
      PassLocks(s.locks, t, path, path);
    }
  }

  lemma ParkedAfterUnlock(s: State, t: Thread, path: Path)
    requires Inv(s) && t in s.held
    ensures ParkedAreWaiting(UnlockStep(s, t, path))
  {
    var after := UnlockStep(s, t, path);
    assert ParkedWait(s, path);
    forall p
      ensures ParkedWait(after, p)
    {
      assert ParkedWait(s, p);
      ReleaseLocks(s.locks, path, p);
    }
    forall u
      ensures WaiterParked(after, u)
    {
      assert WaiterParked(s, u);
      if u in s.waiting && s.waiting[u].OnCondition? {
        ReleaseLocks(s.locks, path, s.waiting[u].path);
      }
    }
  }

  lemma PassInv(s: State, t: Thread, path: Path)
    requires Inv(s) && t in s.held && !s.waiting[t].OnCondition?
    ensures Inv(PassStep(s, t, path))
  {
    var after := PassStep(s, t, path);
    ParkedAfterPass(s, t, path);
    forall p
      ensures BusyIsHeld(after, p)
    {
      BusyAfterPass(s, t, path, p);
    }
    assert BusyIsHeld(s, path);
    forall u, v, p | Holds(after, u, p) && Holds(after, v, p)
      ensures u == v
    {
      HeldAfterPass(s, t, path, u, p);
      HeldAfterPass(s, t, path, v, p);
    }
  }

  lemma UnlockInv(s: State, t: Thread, path: Path)
    requires Inv(s) && Holds(s, t, path)
    ensures Inv(UnlockStep(s, t, path))
  {
    var after := UnlockStep(s, t, path);
    ParkedAfterUnlock(s, t, path);
    forall p
      ensures BusyIsHeld(after, p)
    {
      BusyAfterUnlock(s, t, path, p);
    }
    forall u, v, p | Holds(after, u, p) && Holds(after, v, p)
      ensures u == v
    {
      HeldAfterUnlock(s, t, path, u, p);
      HeldAfterUnlock(s, t, path, v, p);
    }
  }

  lemma NextInv(s: State, e: Event)
    requires Inv(s)
    ensures Inv(Next(s, e))
  {
    match e
    case Lock(t, path) => if CanAct(s, t) { PassInv(s, t, path); }
    case TryLock(t, path) => if CanAct(s, t) && !IsBusy(s.locks, path) { PassInv(s, t, path); }
    case Unlock(t, path) => if CanAct(s, t) && path in s.held[t] { UnlockInv(s, t, path); }
    case GoOn(t) =>
      if t in s.held && t in s.waiting && s.waiting[t].Runnable? {
        PassInv(s, t, s.waiting[t].path);
      }
  }

  lemma {:induction false} RunInv(s: State, events: seq<Event>)
    requires Inv(s)
    ensures Inv(Run(s, events))
    decreases |events|
  {
    if events != [] {
      NextInv(s, events[0]);
      RunInv(Next(s, events[0]), events[1..]);
    }
  }

  /** Two threads never hold the same path. */
  lemma MutualExclusion(start: State, events: seq<Event>, t: Thread, u: Thread, path: Path)
    requires Init(start) && Holds(Run(start, events), t, path) && Holds(Run(start, events), u, path)
    ensures t == u
  {
    InitInv(start);
    RunInv(start, events);
  }

  /** No wake-up is lost: a thread parked on a path waits for a thread that holds it, and when that one unlocks it,
      every such thread is runnable; the next of them to go on gets the lock unless it is taken again before. */
  lemma NoLostWakeUp(start: State, events: seq<Event>, t: Thread)
    requires Init(start) && t in Run(start, events).waiting && Run(start, events).waiting[t].OnCondition?
    ensures var s := Run(start, events);
            var path := s.waiting[t].path;
            exists u :: Holds(s, u, path)
                     && (CanAct(s, u) ==>
                           var after := Next(s, Unlock(u, path));
                           && after.waiting[t] == Runnable(path) && !IsBusy(after.locks, path)
                           && Holds(Next(after, GoOn(t)), t, path))
  {
    InitInv(start);
    RunInv(start, events);
    var s := Run(start, events);
    var path := s.waiting[t].path;
    assert WaiterParked(s, t) && ParkedWait(s, path) && BusyIsHeld(s, path);
    var u :| Holds(s, u, path);
    if CanAct(s, u) {
      UnlockWakes(s, u, path, t);
    }
  }

  lemma UnlockWakes(s: State, u: Thread, path: Path, t: Thread)
    requires Inv(s) && Holds(s, u, path) && CanAct(s, u) && t in s.waiting && s.waiting[t] == OnCondition(path)
    ensures var after := Next(s, Unlock(u, path));
            && t in after.waiting && after.waiting[t] == Runnable(path) && !IsBusy(after.locks, path)
            && Holds(Next(after, GoOn(t)), t, path)
  {
    assert WaiterParked(s, t);
    ReleaseLocks(s.locks, path, path);
  }

  /** In every run: a path nobody holds is taken at once, by Lock and by TryLock; where somebody holds it, TryLock
      changes nothing and Lock makes the thread wait for it. */
  lemma TakenOrWaits(start: State, events: seq<Event>, t: Thread, path: Path)
    requires Init(start) && CanAct(Run(start, events), t)
    ensures var s := Run(start, events);
            var locked, tried := Next(s, Lock(t, path)), Next(s, TryLock(t, path));
            if exists u :: Holds(s, u, path)
            then tried == s && locked.held == s.held && locked.waiting == s.waiting[t := OnCondition(path)]
            else tried == locked && locked.held == s.held[t := s.held[t] + {path}] && CanAct(locked, t)
  {
    InitInv(start);
    RunInv(start, events);
    var s := Run(start, events);
    assert BusyIsHeld(s, path);
    Waits(s, t, path);
  }

  lemma Waits(s: State, t: Thread, path: Path)
    requires CanAct(s, t)
    ensures var locked, tried := Next(s, Lock(t, path)), Next(s, TryLock(t, path));
            if IsBusy(s.locks, path)
            then tried == s && locked.held == s.held && locked.waiting == s.waiting[t := OnCondition(path)]
            else tried == locked && locked.held == s.held[t := s.held[t] + {path}] && CanAct(locked, t)
  {
  }
}
