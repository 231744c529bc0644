/** Closing the elevated connection when it has been idle (armIdleLocked, closeIfIdle and connectElevatedLocked,
    vfs/sudo_client_elevated.go), with a constant positive idle time and consent that is not remembered. Everything here
    runs under the client's mutex; a timer may fire late, and its callback may wait for the mutex longer still. */
module IdleTimer {
  import opened Base

  type TimerId = nat

  /** A timer whose callback has not run yet; once fired, stopping it is too late. */
  datatype Timer = Timer(due: nat, fired: bool)

  /** open: there is a connection. grants and idleCloses count how often the user agreed and how often an idle
      connection was closed. */
  datatype State = State(
    now: nat,
    lastUsed: nat,
    open: bool,
    consented: bool,
    idle: Option<TimerId>,
    timers: map<TimerId, Timer>,
    next: TimerId,
    grants: nat,
    idleCloses: nat)

  const START := State(0, 0, false, false, None, map[], 0, 0, 0)

  /** time.AfterFunc, kept as the idle timer */
  function AfterFunc(s: State, d: nat): State {
    s.(timers := s.timers[s.next := Timer(s.now + d, false)], idle := Some(s.next), next := s.next + 1)
  }

  /** Timer.Stop: a callback that has been fired still runs. */
  function Stop(s: State): State {
    if s.idle.Some? && s.idle.value in s.timers && !s.timers[s.idle.value].fired then
      s.(timers := s.timers - {s.idle.value})
    else s
  }

  function ArmIdle(s: State, idle: nat): State {
    if !s.open then s else AfterFunc(Stop(s.(lastUsed := s.now)), idle)
  }

  function CloseIfIdle(s: State, idle: nat): State {
    if !s.open then s
    else if s.now < s.lastUsed + idle then AfterFunc(s, s.lastUsed + idle - s.now)
    else s.(open := false, idle := None, consented := false, idleCloses := s.idleCloses + 1)
  }

  /** The dispatcher is started after the user agreed, at once if that was before and no idle closing came between; it
      may fail to come up. */
  function Connect(s: State, idle: nat, agrees: bool, comesUp: bool): State {
    if s.open || (!s.consented && !agrees) then s
    else
      var asked := if s.consented then s else s.(consented := true, grants := s.grants + 1);
      if comesUp then ArmIdle(asked.(open := true), idle) else asked
  }

  datatype Event =
    | Pass(time: nat)
    | Fire(timer: TimerId)
    | Callback(timer: TimerId)
    | TryConnect(agrees: bool, comesUp: bool)
    | GetAnswer
    | Lose

  function Next(s: State, idle: nat, e: Event): State {
    match e
    case Pass(time) => s.(now := s.now + time)
    case Fire(t) =>
      if t in s.timers && s.timers[t].due <= s.now then s.(timers := s.timers[t := s.timers[t].(fired := true)]) else s
    case Callback(t) =>
      if t in s.timers && s.timers[t].fired then CloseIfIdle(s.(timers := s.timers - {t}), idle) else s
    case TryConnect(agrees, comesUp) => Connect(s, idle, agrees, comesUp)
    case GetAnswer => ArmIdle(s, idle)
    case Lose => s.(open := false)
  }

  function Run(s: State, idle: nat, events: seq<Event>): State
    decreases |events|
  {
    if events == [] then s else Run(Next(s, idle, events[0]), idle, events[1..])
  }

  // ----- the client's own methods

  class Client {
    const idleTime: nat
    var now: nat
    var lastUsed: nat
    var open: bool
    var consented: bool
    var idle: Option<TimerId>
    var timers: map<TimerId, Timer>
    var next: TimerId
    ghost var grants: nat
    ghost var idleCloses: nat

    ghost function Current(): State
      reads this
    {
      State(now, lastUsed, open, consented, idle, timers, next, grants, idleCloses)
    }

    constructor (idleTime: nat)
      ensures this.idleTime == idleTime && Current() == START && Valid()
    {
      this.idleTime := idleTime;
      now, lastUsed, open, consented, idle, timers, next := 0, 0, false, false, None, map[], 0;
      grants, idleCloses := 0, 0;
    }

    method StartTimer(d: nat) returns (t: TimerId)
      modifies this`timers, this`next
      ensures t == old(next) && next == t + 1 && timers == old(timers)[t := Timer(now + d, false)]
    {
      t := next;
      timers := timers[t := Timer(now + d, false)];
      next := next + 1;
    }

    /** Timers are numbered in the order they are started. */
    ghost predicate Valid()
      reads this
    {
      (forall t :: t in timers ==> t < next) && (idle.Some? ==> idle.value < next)
    }

    /** A new callback is outstanding that is due at the given time. */
    ghost predicate IsArmed(due: nat)
      reads this
    {
      idle.Some? && idle.value in timers && timers[idle.value] == Timer(due, false)
    }

    /** armIdleLocked: on an open connection the idle time starts now, with a callback for its end; the callback
        outstanding until now is gone unless it was fired, and every other one stays. */
    method ArmIdleLocked()
      requires Valid()
      modifies this
      ensures Valid()
      ensures Current() == ArmIdle(old(Current()), idleTime)
      ensures !old(open) ==> Current() == old(Current())
      ensures old(open) ==>
                && open && consented == old(consented) && lastUsed == now == old(now) && IsArmed(now + idleTime)
                && (forall t :: t in timers && t != idle.value ==> t in old(timers) && timers[t] == old(timers[t]))
                && (forall t :: t in old(timers) && t !in timers ==> old(idle) == Some(t) && !old(timers[t].fired))
                && (old(idle).Some? && old(idle).value in timers ==> timers[old(idle).value].fired)
    {
      if !open {
        return;
      }
      lastUsed := now;
      if idle.Some? && idle.value in timers && !timers[idle.value].fired {
        timers := timers - {idle.value};
      }
      var t := StartTimer(idleTime);
      idle := Some(t);
    }

    /** closeIfIdle: an open connection is closed, and the consent forgotten, exactly when the idle time has passed
        since lastUsed; otherwise it stays open with a callback for the rest of that time. */
    method CloseIfIdleLocked()
      requires Valid()
      modifies this
      ensures Valid()
      ensures Current() == CloseIfIdle(old(Current()), idleTime)
      ensures !old(open) ==> Current() == old(Current())
      ensures old(open) && now >= lastUsed + idleTime ==> !open && !consented && timers == old(timers)
      ensures old(open) && now < lastUsed + idleTime ==>
                open && consented == old(consented) && IsArmed(lastUsed + idleTime)
      ensures lastUsed == old(lastUsed) && now == old(now)
    {
      if !open {
        return;
      }
      if now < lastUsed + idleTime {
        var t := StartTimer(lastUsed + idleTime - now);
        idle := Some(t);
        return;
      }
      open, idle := false, None;
      consented := false;
      idleCloses := idleCloses + 1;
    }

    /** connectElevatedLocked: nothing happens without consent; with it, the connection that comes up starts its idle
        time now. The user is asked, and the agreement counted, only where there was no consent. */
    method ConnectElevatedLocked(agrees: bool, comesUp: bool)
      requires Valid()
      modifies this
      ensures Valid()
      ensures Current() == Connect(old(Current()), idleTime, agrees, comesUp)
      ensures old(open) || (!old(consented) && !agrees) ==> Current() == old(Current())
      ensures !old(open) && (old(consented) || agrees) ==>
                && consented && open == comesUp
                && (open ==> lastUsed == now == old(now) && IsArmed(now + idleTime))
                && grants == old(grants) + (if old(consented) then 0 else 1)
    {
      if open {
        return;
      }
      if !consented {
        if !agrees {
          return;
        }
        consented := true;
        grants := grants + 1;
      }
      if comesUp {
        open := true;
        ArmIdleLocked();
      }
    }
  }

  // ----- over every run

  /** Some callback that has not run yet is due when the idle time is over, or before. */
  predicate IsWatched(s: State, idle: nat) {
    exists t :: t in s.timers && s.timers[t].due <= s.lastUsed + idle
  }

  predicate Inv(s: State, idle: nat) {
    && s.lastUsed <= s.now
    && (s.open ==> s.consented && IsWatched(s, idle))
    && s.grants == s.idleCloses + (if s.consented then 1 else 0)
    && (forall t :: t in s.timers ==> t < s.next)
  }

  lemma ArmInv(s: State, idle: nat)
    requires s.consented && s.grants == s.idleCloses + 1 && (forall t :: t in s.timers ==> t < s.next)
    requires s.lastUsed <= s.now
    ensures Inv(ArmIdle(s, idle), idle)
  {
    if s.open {
      var after := ArmIdle(s, idle);
      assert s.next in after.timers && after.timers[s.next].due == after.lastUsed + idle;
    }
  }

  lemma CallbackInv(s: State, idle: nat, t: TimerId)
    requires Inv(s, idle)
    ensures Inv(CloseIfIdle(s.(timers := s.timers - {t}), idle), idle)
  {
    var after := CloseIfIdle(s.(timers := s.timers - {t}), idle);
    if after.open {
      assert s.next in after.timers && after.timers[s.next].due == after.lastUsed + idle;
    }
  }

  lemma FireInv(s: State, idle: nat, t: TimerId)
    requires Inv(s, idle) && t in s.timers
    ensures Inv(s.(timers := s.timers[t := s.timers[t].(fired := true)]), idle)
  {
    var after := s.(timers := s.timers[t := s.timers[t].(fired := true)]);
    if s.open {
      var u :| u in s.timers && s.timers[u].due <= s.lastUsed + idle;
      assert u in after.timers && after.timers[u].due <= after.lastUsed + idle;
    }
  }

  lemma PassInv(s: State, idle: nat, time: nat)
    requires Inv(s, idle)
    ensures Inv(s.(now := s.now + time), idle)
  {
    if s.open {
      var u :| u in s.timers && s.timers[u].due <= s.lastUsed + idle;
      assert IsWatched(s.(now := s.now + time), idle);
    }
  }

  lemma NextInv(s: State, idle: nat, e: Event)
    requires Inv(s, idle)
    ensures Inv(Next(s, idle, e), idle)
  {
    match e
    case Pass(time) => PassInv(s, idle, time);
    case Fire(t) =>
      if t in s.timers {
        FireInv(s, idle, t);
      }
    case Callback(t) => CallbackInv(s, idle, t);
    case TryConnect(agrees, comesUp) =>
      if !s.open {
        var asked := if s.consented then s else s.(consented := true, grants := s.grants + 1);
        ArmInv(asked.(open := true), idle);
      }
    case GetAnswer =>
      if s.open {
        ArmInv(s, idle);
      }
    case Lose =>
  }

  lemma {:induction false} RunInv(s: State, idle: nat, events: seq<Event>)
    requires Inv(s, idle)
    ensures Inv(Run(s, idle, events), idle)
    decreases |events|
  {
    if events != [] {
      NextInv(s, idle, events[0]);
      RunInv(Next(s, idle, events[0]), idle, events[1..]);
    }
  }

  /** An open connection is always watched: a callback is outstanding that is due no later than the idle time after the
      last answer. So if no callback is overdue, the idle time is not over. */
  lemma OpenIsWatched(idle: nat, events: seq<Event>)
    ensures var s := Run(START, idle, events);
            s.open ==>
              && IsWatched(s, idle)
              && ((forall t :: t in s.timers ==> s.timers[t].due >= s.now) ==> s.now <= s.lastUsed + idle)
  {
    RunInv(START, idle, events);
  }

  /** The time that passes in the events since the last answer or successful connect among them, since before them if
      there is none. */
  function TimeUnused(s: State, idle: nat, events: seq<Event>, since: nat): nat
    decreases |events|
  {
    if events == [] then since
    else TimeUnused(Next(s, idle, events[0]), idle, events[1..], UnusedAfter(s, idle, events[0], since))
  }

  /** An answer over the connection, or a connect that opens one, starts the time anew. */
  predicate IsUse(s: State, idle: nat, e: Event) {
    (e.GetAnswer? && s.open) || (e.TryConnect? && !s.open && Next(s, idle, e).open)
  }

  function UnusedAfter(s: State, idle: nat, e: Event, since: nat): nat {
    if IsUse(s, idle, e) then 0 else if e.Pass? then since + e.time else since
  }

  lemma UnusedNext(s: State, idle: nat, e: Event, since: nat)
    requires s.open ==> s.now == s.lastUsed + since
    ensures var t := Next(s, idle, e); t.open ==> t.now == t.lastUsed + UnusedAfter(s, idle, e, since)
  {
  }

  /** lastUsed is the time of the last answer or connect. */
  lemma {:induction false} UnusedRun(s: State, idle: nat, events: seq<Event>, since: nat)
    requires s.open ==> s.now == s.lastUsed + since
    ensures var t := Run(s, idle, events); t.open ==> t.now == t.lastUsed + TimeUnused(s, idle, events, since)
    decreases |events|
  {
    if events != [] {
      UnusedNext(s, idle, events[0], since);
      UnusedRun(Next(s, idle, events[0]), idle, events[1..], UnusedAfter(s, idle, events[0], since));
    }
  }

  /** In every run the next event closes an open connection exactly when the connection is lost or a fired callback
      runs, however late, after at least the idle time without an answer; in the second case the consent is gone. */
  lemma ClosedOnlyWhenIdle(idle: nat, events: seq<Event>, e: Event)
    requires Run(START, idle, events).open
    ensures var s := Run(START, idle, events);
            var after := Next(s, idle, e);
            && (!after.open <==>
                  e.Lose? || (e.Callback? && e.timer in s.timers && s.timers[e.timer].fired
                              && TimeUnused(START, idle, events, 0) >= idle))
            && (!after.open && e.Callback? ==> !after.consented)
  {
    UnusedRun(START, idle, events, 0);
  }

  /** Consent is used up by an idle closing and by nothing else: while a connection is open the user has agreed exactly
      once more than idle connections were closed. */
  lemma ConsentIsCounted(idle: nat, events: seq<Event>)
    ensures var s := Run(START, idle, events);
            && s.grants == s.idleCloses + (if s.consented then 1 else 0)
            && (s.open ==> s.grants == s.idleCloses + 1)
  {
    RunInv(START, idle, events);
  }

  /** After an idle closing no connection comes up without asking: without the user's agreement the client stays
      unconnected. */
  lemma {:induction false} AsksAgain(s: State, idle: nat, events: seq<Event>)
    requires !s.open && !s.consented
    requires forall i :: 0 <= i < |events| ==> events[i].TryConnect? ==> !events[i].agrees
    ensures !Run(s, idle, events).open && !Run(s, idle, events).consented
    decreases |events|
  {
    if events != [] {
      AsksAgain(Next(s, idle, events[0]), idle, events[1..]);
    }
  }
}
