/** Which name an item gets in the trash (moveIntoFreedesktopTrash, vfs/trash_xdg.go): the first that is free, and an
    error only when none of the 100000 names is. */
module TrashProgress {
  import opened Base
  import opened Trash

  // ----- the names are different

  /** The number decimal digits spell. */
  function NumberOf(s: string): nat {
    if s == "" then 0 else 10 * NumberOf(s[..|s| - 1]) + DigitOf(s[|s| - 1])
  }

  function DigitOf(c: char): nat {
    if '0' <= c <= '9' then c as nat - '0' as nat else 0
  }

  predicate AreDigits(s: string) {
    s != "" && forall i :: 0 <= i < |s| ==> '0' <= s[i] <= '9'
  }

  lemma LastDigit(n: nat)
    ensures var c := "0123456789"[n % 10]; '0' <= c <= '9' && DigitOf(c) == n % 10
  {
  }

  lemma {:induction false} DecimalSpells(n: nat)
    ensures AreDigits(Decimal(n)) && NumberOf(Decimal(n)) == n
  {
    var c := "0123456789"[n % 10];
    var high := if n < 10 then "" else Decimal(n / 10);
    LastDigit(n);
    if n >= 10 {
      DecimalSpells(n / 10);
    }
    assert Decimal(n) == high + [c] && (high + [c])[..|high|] == high;
  }

  /** The base name, then base.1, base.2 and so on. */
  function Numbered(base: Name, k: nat): Name {
    if k == 0 then base else base + ("." + Decimal(k))
  }

  lemma NameIsNumbered(p: Process)
    ensures NameOf(p) == Numbered(p.base, p.suffix) && InfoOf(p) == Numbered(p.base, p.suffix) + ".trashinfo"
  {
  }

  /** What stands behind the base name. */
  function NumberBehind(base: Name, name: Name): nat {
    if |name| <= |base| + 1 then 0 else NumberOf(name[|base| + 1..])
  }

  lemma NumberedBack(base: Name, k: nat)
    ensures NumberBehind(base, Numbered(base, k)) == k
  {
    hide Decimal, NumberOf;
    DecimalSpells(k);
    if k > 0 {
      assert Numbered(base, k)[|base| + 1..] == Decimal(k);
    }
  }

  lemma EndsInInfo(name: Name)
    ensures (name + ".trashinfo")[..|name + ".trashinfo"| - 10] == name
  {
  }

  lemma NumberedApart(base: Name, k: nat, l: nat)
    requires k != l
    ensures Numbered(base, k) != Numbered(base, l)
    ensures Numbered(base, k) + ".trashinfo" != Numbered(base, l) + ".trashinfo"
  {
    NumberedBack(base, k);
    NumberedBack(base, l);
    EndsInInfo(Numbered(base, k));
    EndsInInfo(Numbered(base, l));
  }

  // ----- one name

  predicate IsTaken(s: State, base: Name, k: nat) {
    Numbered(base, k) in s.files || Numbered(base, k) + ".trashinfo" in s.infos
  }

  function WithProcess(s: State, id: ProcessId, p: Process): State {
    s.(procs := s.procs[id := p])
  }

  /** The state after the item of a process is moved under its k-th name. */
  function WithMoved(s: State, id: ProcessId, k: nat): State
    requires id in s.procs && s.procs[id].source in s.sources
  {
    var p := s.procs[id];
    var name := Numbered(p.base, k);
    State(s.sources - {p.source}, s.files[name := s.sources[p.source]],
          s.infos[name + ".trashinfo" := Info(By(id), Some(p.source))],
          s.procs[id := p.(suffix := k, pc := Done(Moved))], s.leaks)
  }

  lemma {:induction false} GoingFirst(s: State, id: ProcessId, n: nat)
    requires id in s.procs && n > 0
    ensures Run(s, Going(id, n)) == Run(Next(s, id, Go), Going(id, n - 1))
  {
    RunOne(s, id, Go, Going(id, n - 1));
  }

  lemma {:induction false} GoingMore(s: State, id: ProcessId, a: nat, b: nat)
    requires id in s.procs
    ensures Run(s, Going(id, a + b)) == Run(Run(s, Going(id, a)), Going(id, b))
    decreases a
  {
    hide Next;
    if a > 0 {
      GoingFirst(s, id, a + b);
      GoingFirst(s, id, a);
      NextKeepsId(s, id);
      GoingMore(Next(s, id, Go), id, a - 1, b);
    }
  }

  lemma NextKeepsId(s: State, id: ProcessId)
    requires id in s.procs
    ensures id in Next(s, id, Go).procs
  {
  }

  lemma {:induction false} GoingOne(s: State, id: ProcessId)
    requires id in s.procs
    ensures Run(s, Going(id, 1)) == Next(s, id, Go)
  {
    GoingFirst(s, id, 1);
  }

  /** A taken name is left for the next one, and nothing else happens. */
  lemma {:induction false} TakenIsLeft(s: State, id: ProcessId) returns (n: nat)
    requires id in s.procs && s.procs[id].pc == Loop && s.procs[id].suffix < 100000
    requires IsTaken(s, s.procs[id].base, s.procs[id].suffix)
    ensures Run(s, Going(id, n)) == WithProcess(s, id, s.procs[id].(suffix := s.procs[id].suffix + 1))
  {
    hide Run, Going;
    var p := s.procs[id];
    NameIsNumbered(p);
    var s1 := Next(s, id, Go);
    assert s1 == WithProcess(s, id, p.(pc := StatFile));
    NameIsNumbered(p.(pc := StatFile));
    var s2 := Next(s1, id, Go);
    GoingOne(s, id);
    GoingOne(s1, id);
    GoingMore(s, id, 1, 1);
    n := 2;
    if Numbered(p.base, p.suffix) !in s.files {
      assert s2 == WithProcess(s, id, p.(pc := StatInfo));
      NameIsNumbered(p.(pc := StatInfo));
      GoingOne(s2, id);
      GoingMore(s, id, 2, 1);
      n := 3;
    }
  }

  lemma Prepared(s: State, id: ProcessId)
    requires id in s.procs && s.procs[id].pc == Loop && s.procs[id].suffix < 100000
    requires !IsTaken(s, s.procs[id].base, s.procs[id].suffix)
    ensures Run(s, Going(id, 3)) == WithProcess(s, id, s.procs[id].(pc := Create))
  {
    hide Run, Going;
    var p := s.procs[id];
    NameIsNumbered(p);
    NameIsNumbered(p.(pc := StatFile));
    NameIsNumbered(p.(pc := StatInfo));
    var s1, s2 := Next(s, id, Go), Next(Next(s, id, Go), id, Go);
    assert s1 == WithProcess(s, id, p.(pc := StatFile)) && s2 == WithProcess(s, id, p.(pc := StatInfo));
    GoingOne(s, id);
    GoingOne(s1, id);
    GoingOne(s2, id);
    GoingMore(s, id, 1, 1);
    GoingMore(s, id, 2, 1);
  }

  /** From the reservation on: entry, contents, rename. */
  lemma Reserved(s: State, id: ProcessId)
    requires id in s.procs && s.procs[id].pc == Create && s.procs[id].source in s.sources
    requires !IsTaken(s, s.procs[id].base, s.procs[id].suffix)
    ensures Run(s, Going(id, 4)) == WithMoved(s, id, s.procs[id].suffix)
  {
    hide Run, Going, Numbered;
    var p := s.procs[id];
    var name := Numbered(p.base, p.suffix);
    NameIsNumbered(p);
    var s1 := Next(s, id, Go);
    var reserved := s.infos[name + ".trashinfo" := Info(By(id), None)];
    assert s1 == s.(infos := reserved, procs := s.procs[id := p.(pc := Write)]);
    NameIsNumbered(p.(pc := Write));
    var infos := s.infos[name + ".trashinfo" := Info(By(id), Some(p.source))];
    var s2 := Next(s1, id, Go);
    assert s2.infos == infos && s2 == s.(infos := infos, procs := s.procs[id := p.(pc := CheckAgain)]);
    var s3 := Next(s2, id, Go);
    assert s3 == s.(infos := infos, procs := s.procs[id := p.(pc := Rename)]);
    NameIsNumbered(p.(pc := Rename));
    var s4 := Next(s3, id, Go);
    assert s4 == WithMoved(s, id, p.suffix);
    GoingOne(s, id);
    GoingOne(s1, id);
    GoingOne(s2, id);
    GoingOne(s3, id);
    GoingMore(s, id, 1, 1);
    GoingMore(s, id, 2, 1);
    GoingMore(s, id, 3, 1);
  }

  // ----- a process by itself

  /** From a name on, taken ones are left behind and the item goes under the first that is free. */
  lemma {:induction false} GoesToFirstFree(s: State, id: ProcessId, k: nat) returns (n: nat)
    requires id in s.procs && s.procs[id].pc == Loop && s.procs[id].source in s.sources
    requires s.procs[id].suffix <= k < 100000
    requires forall j :: s.procs[id].suffix <= j < k ==> IsTaken(s, s.procs[id].base, j)
    requires !IsTaken(s, s.procs[id].base, k)
    ensures Run(s, Going(id, n)) == WithMoved(s, id, k)
    decreases k - s.procs[id].suffix
  {
    hide Run, Going, IsTaken;
    var p := s.procs[id];
    if p.suffix == k {
      Prepared(s, id);
      var t := WithProcess(s, id, p.(pc := Create));
      SameTaken(s, t, p.base, k);
      Reserved(t, id);
      GoingMore(s, id, 3, 4);
      n := 7;
      assert WithMoved(t, id, k) == WithMoved(s, id, k);
    } else {
      var m := TakenIsLeft(s, id);
      var t := WithProcess(s, id, p.(suffix := p.suffix + 1));
      forall j
        ensures IsTaken(s, p.base, j) == IsTaken(t, p.base, j)
      {
        SameTaken(s, t, p.base, j);
      }
      var rest := GoesToFirstFree(t, id, k);
      GoingMore(s, id, m, rest);
      n := m + rest;
      assert WithMoved(t, id, k) == WithMoved(s, id, k);
    }
  }

  lemma SameTaken(s: State, t: State, base: Name, k: nat)
    requires t.files == s.files && t.infos == s.infos
    ensures IsTaken(s, base, k) == IsTaken(t, base, k)
  {
  }

  /** A process that is not disturbed moves its item under the first of its names that is free in files/ and in info/.
      */
  lemma FirstFreeName(start: State, id: ProcessId, k: nat) returns (n: nat)
    requires Init(start) && id in start.procs && start.procs[id].source in start.sources && k < 100000
    requires forall j :: 0 <= j < k ==> IsTaken(start, start.procs[id].base, j)
    requires !IsTaken(start, start.procs[id].base, k)
    ensures Run(start, Going(id, n)) == WithMoved(start, id, k)
  {
    n := GoesToFirstFree(start, id, k);
  }

  /** Who loses the name when the entry in info/ is made goes on to the next free name. */
  lemma LostAtCreate(s: State, id: ProcessId, k: nat) returns (n: nat)
    requires id in s.procs && s.procs[id].pc == Create && s.procs[id].source in s.sources
    requires InfoOf(s.procs[id]) in s.infos
    requires s.procs[id].suffix < k < 100000 && !IsTaken(s, s.procs[id].base, k)
    requires forall j :: s.procs[id].suffix < j < k ==> IsTaken(s, s.procs[id].base, j)
    ensures Run(s, Going(id, n)) == WithMoved(s, id, k)
  {
    hide Run, Going;
    var p := s.procs[id];
    var t := WithProcess(s, id, p.(pc := Loop, suffix := p.suffix + 1));
    assert Next(s, id, Go) == t;
    GoingOne(s, id);
    forall j
      ensures IsTaken(s, p.base, j) == IsTaken(t, p.base, j)
    {
      SameTaken(s, t, p.base, j);
    }
    var rest := GoesToFirstFree(t, id, k);
    GoingMore(s, id, 1, rest);
    n := 1 + rest;
    assert WithMoved(t, id, k) == WithMoved(s, id, k);
  }

  /** Who cannot look a name up goes on to the next free name, too. */
  lemma LostAtLook(s: State, id: ProcessId, k: nat) returns (n: nat)
    requires id in s.procs && s.procs[id].pc in {StatFile, StatInfo} && s.procs[id].source in s.sources
    requires s.procs[id].suffix < k < 100000 && !IsTaken(s, s.procs[id].base, k)
    requires forall j :: s.procs[id].suffix < j < k ==> IsTaken(s, s.procs[id].base, j)
    ensures Run(s, [(id, Fail)] + Going(id, n)) == WithMoved(s, id, k)
  {
    hide Run, Going;
    var p := s.procs[id];
    var t := WithProcess(s, id, p.(pc := Loop, suffix := p.suffix + 1));
    assert Next(s, id, Fail) == t;
    RunOneMore(s, id, Fail, t);
    forall j
      ensures IsTaken(s, p.base, j) == IsTaken(t, p.base, j)
    {
      SameTaken(s, t, p.base, j);
    }
    n := GoesToFirstFree(t, id, k);
    assert WithMoved(t, id, k) == WithMoved(s, id, k);
  }

  /** The state without the own entry in info/. */
  function WithoutInfo(s: State, id: ProcessId): State
    requires id in s.procs
  {
    s.(infos := s.infos - {InfoOf(s.procs[id])})
  }

  /** Who finds a destination when renaming removes the own entry in info/ and goes on to the next free name. */
  lemma LostAtRename(s: State, id: ProcessId, c: Choice, k: nat) returns (n: nat)
    requires id in s.procs && s.procs[id].pc == Rename && s.procs[id].source in s.sources
    requires c == Exists || (c == Go && NameOf(s.procs[id]) in s.files)
    requires s.procs[id].suffix < k < 100000 && !IsTaken(s, s.procs[id].base, k)
    requires forall j :: s.procs[id].suffix < j < k ==> IsTaken(s, s.procs[id].base, j)
    ensures Run(s, [(id, c)] + Going(id, n)) == WithMoved(WithoutInfo(s, id), id, k)
  {
    hide Run, Going, Numbered;
    var p := s.procs[id];
    var u := WithProcess(s, id, p.(pc := Undo(None)));
    assert Next(s, id, c) == u;
    RunOneMore(s, id, c, u);
    var left := WithoutInfo(s, id);
    var t := WithProcess(left, id, p.(pc := Loop, suffix := p.suffix + 1));
    NameIsNumbered(p);
    NameIsNumbered(p.(pc := Undo(None)));
    assert Next(u, id, Go) == t;
    GoingOne(u, id);
    forall j | j > p.suffix
      ensures IsTaken(s, p.base, j) == IsTaken(t, p.base, j)
    {
      NumberedApart(p.base, j, p.suffix);
    }
    var rest := GoesToFirstFree(t, id, k);
    GoingMore(u, id, 1, rest);
    n := 1 + rest;
    RunOne(s, id, c, Going(id, n));
    assert WithMoved(t, id, k) == WithMoved(left, id, k);
  }

  lemma RunOneMore(s: State, id: ProcessId, c: Choice, u: State)
    requires id in s.procs && Next(s, id, c) == u
    ensures forall n: nat :: Run(s, [(id, c)] + Going(id, n)) == Run(u, Going(id, n))
  {
    forall n: nat {
      RunOne(s, id, c, Going(id, n));
    }
  }

  // ----- no name left

  /** Every name up to the one a process is at was taken when it started by itself; it has changed nothing outside yet,
      or has the entry of a free name, or is done. */
  predicate IsLone(start: State, s: State, id: ProcessId)
    requires id in start.procs
  {
    && id in s.procs && s.procs[id].base == start.procs[id].base && s.procs[id].source == start.procs[id].source
    && var p := s.procs[id];
    && (forall j :: 0 <= j < p.suffix ==> IsTaken(start, p.base, j))
    && p.suffix <= 100000
    && (p.pc in {Loop, StatFile, StatInfo, Create} ==> s.files == start.files && s.infos == start.infos)
    && (p.pc in {StatInfo, Create, Write, CheckAgain, Rename} ==> Numbered(p.base, p.suffix) !in start.files)
    && (p.pc in {Create, Write, CheckAgain, Rename} ==> !IsTaken(start, p.base, p.suffix) && s.files == start.files)
    && (p.pc in {StatFile, StatInfo} ==> p.suffix < 100000)
    && p.pc != Undo(None) && p.pc != Undo(Some(NoNameLeft))
    && (p.pc == Done(NoNameLeft) ==> p.suffix == 100000)
  }

  lemma LoneLook(start: State, s: State, id: ProcessId)
    requires id in start.procs && IsLone(start, s, id) && s.procs[id].pc in {Loop, StatFile, StatInfo}
    ensures IsLone(start, LookStep(s, id, Go), id)
  {
    hide Numbered, NameOf, InfoOf;
    var p := s.procs[id];
    NameIsNumbered(p);
    var next := LookNext(s, p, Go);
    assert LookStep(s, id, Go) == WithProcess(s, id, next);
    if next.suffix > p.suffix {
      assert IsTaken(start, p.base, p.suffix);
    }
  }

  lemma LoneWrite(start: State, s: State, id: ProcessId)
    requires id in start.procs && IsLone(start, s, id) && s.procs[id].pc in {Create, Write}
    ensures IsLone(start, WriteStep(s, id, Go), id)
  {
    var p := s.procs[id];
    NameIsNumbered(p);
    var t := WriteStep(s, id, Go);
    assert t.procs[id] == p.(pc := if p.pc == Create then Write else CheckAgain) && t.files == s.files;
  }

  lemma LoneRename(start: State, s: State, id: ProcessId)
    requires id in start.procs && IsLone(start, s, id) && s.procs[id].pc == Rename
    ensures IsLone(start, RenameStep(s, id, Go), id)
  {
    var p := s.procs[id];
    NameIsNumbered(p);
    var pc := if p.source in s.sources then Done(Moved) else Undo(Some(Failed));
    assert RenameStep(s, id, Go).procs[id] == p.(pc := pc);
  }

  lemma LoneNext(start: State, s: State, id: ProcessId)
    requires id in start.procs && IsLone(start, s, id)
    ensures IsLone(start, Next(s, id, Go), id)
  {
    var pc := s.procs[id].pc;
    if pc in {Loop, StatFile, StatInfo} {
      hide IsLone;
      LoneLook(start, s, id);
    } else if pc in {Create, Write} {
      hide IsLone;
      LoneWrite(start, s, id);
    } else if pc == Rename {
      hide IsLone;
      LoneRename(start, s, id);
    } else {
      hide IsTaken;
      assert pc.CheckAgain? || pc.Undo? || pc.Done?;
    }
  }

  lemma {:induction false} LoneRun(start: State, s: State, id: ProcessId, n: nat)
    requires id in start.procs && IsLone(start, s, id)
    ensures IsLone(start, Run(s, Going(id, n)), id)
    decreases n
  {
    if n > 0 {
      LoneNext(start, s, id);
      GoingFirst(s, id, n);
      LoneRun(start, Next(s, id, Go), id, n - 1);
    }
  }

  /** All names taken: the process ends with that error and has changed nothing. */
  lemma {:induction false} AllTakenEnds(s: State, id: ProcessId) returns (n: nat)
    requires id in s.procs && s.procs[id].pc == Loop && s.procs[id].suffix <= 100000
    requires forall j :: s.procs[id].suffix <= j < 100000 ==> IsTaken(s, s.procs[id].base, j)
    ensures Run(s, Going(id, n)) == WithProcess(s, id, s.procs[id].(suffix := 100000, pc := Done(NoNameLeft)))
    decreases 100000 - s.procs[id].suffix
  {
    hide Run, Going, IsTaken;
    var p := s.procs[id];
    if p.suffix == 100000 {
      GoingOne(s, id);
      n := 1;
    } else {
      var m := TakenIsLeft(s, id);
      var t := WithProcess(s, id, p.(suffix := p.suffix + 1));
      forall j
        ensures IsTaken(s, p.base, j) == IsTaken(t, p.base, j)
      {
        SameTaken(s, t, p.base, j);
      }
      var rest := AllTakenEnds(t, id);
      GoingMore(s, id, m, rest);
      n := m + rest;
    }
  }

  /** By itself a process runs out of names if and only if all 100000 are taken. */
  lemma NoNameLeftExactly(start: State, id: ProcessId)
    requires Init(start) && id in start.procs
    ensures (exists n: nat :: RunsOut(start, id, n))
        <==> forall j :: 0 <= j < 100000 ==> IsTaken(start, start.procs[id].base, j)
  {
    if n: nat :| RunsOut(start, id, n) {
      LoneRun(start, start, id, n);
    }
    if forall j :: 0 <= j < 100000 ==> IsTaken(start, start.procs[id].base, j) {
      var n := AllTakenEnds(start, id);
      assert RunsOut(start, id, n);
    }
  }

  predicate RunsOut(start: State, id: ProcessId, n: nat) {
    var s := Run(start, Going(id, n)); id in s.procs && s.procs[id].pc == Done(NoNameLeft)
  }

  // ----- giving up

  /** A caller that is gone before a name is tried, or an entry in info/ that cannot be made: the process ends with that
      error at once and nothing is changed. */
  lemma EndsAtOnce(s: State, id: ProcessId)
    requires id in s.procs
    ensures s.procs[id].pc == Loop && s.procs[id].suffix < 100000 ==>
              Run(s, [(id, Cancel)]) == WithProcess(s, id, s.procs[id].(pc := Done(Cancelled)))
    ensures s.procs[id].pc == Create && InfoOf(s.procs[id]) !in s.infos ==>
              Run(s, [(id, Fail)]) == WithProcess(s, id, s.procs[id].(pc := Done(Failed)))
  {
    RunOne(s, id, Cancel, []);
    RunOne(s, id, Fail, []);
    assert [(id, Cancel)] + [] == [(id, Cancel)] && [(id, Fail)] + [] == [(id, Fail)];
  }

  /** With the entry in info/ made, a caller that is gone, contents that cannot be written or a rename that fails end
      the process with that error, and the entry is removed. */
  lemma EndsWithoutInfo(s: State, id: ProcessId, c: Choice)
    requires id in s.procs
    requires var pc := s.procs[id].pc; (c == Cancel && pc == CheckAgain) || (c == Fail && pc in {Write, Rename})
    ensures var outcome := if c == Cancel then Cancelled else Failed;
            Run(s, [(id, c), (id, Go)]) == WithProcess(WithoutInfo(s, id), id, s.procs[id].(pc := Done(outcome)))
  {
    var p := s.procs[id];
    var outcome := if c == Cancel then Cancelled else Failed;
    var u := WithProcess(s, id, p.(pc := Undo(Some(outcome))));
    assert Next(s, id, c) == u;
    NameIsNumbered(p);
    NameIsNumbered(p.(pc := Undo(Some(outcome))));
    assert Next(u, id, Go) == WithProcess(WithoutInfo(s, id), id, p.(pc := Done(outcome)));
    assert [(id, c), (id, Go)] == [(id, c)] + [(id, Go)] && [(id, Go)] == [(id, Go)] + [];
    RunOne(s, id, c, [(id, Go)]);
    RunOne(u, id, Go, []);
  }
}
