/** Requests of many callers over one connection to the elevated dispatcher (SendRequest and Connect,
    vfs/sudo_client.go), framed as in vfs/sudo_frame.go. Each step of a caller, of a dispatcher or of the world is
    atomic; the client's mutex is held from sending a request to receiving its answer. The bytes of both directions
    arrive in any portions and may break off anywhere. */
module SudoSession {
  import opened Base
  import F = SudoFrame

  /** A call of SendRequest; it also stands for the one request the call makes. */
  type Call = nat

  type LinkId = nat

  /** The message a call sends. */
  type Asks = Call -> Bytes

  /** A message a dispatcher has read and the message it has begun to send as the answer. */
  datatype Exchange = Exchange(request: Bytes, answer: Bytes)

  datatype Pc =
    | Begin
    | Connected
    | Waiting
    /** The answer, the connection it came over, and how many answers had come over it before. */
    | Answered(answer: Bytes, link: LinkId, place: nat)
    | Gone

  /** A connection. up and down: the bytes on their way to the dispatcher and back; upSeen and downSeen: those that have
      arrived but are not read as a message yet; open: whether the dispatcher still serves it. asked, handled and
      received are its history: the calls that sent over it, what the dispatcher made of that, and how many answers were
      read. */
  datatype Link = Link(up: Bytes, upSeen: Bytes, down: Bytes, downSeen: Bytes, open: bool,
                       asked: seq<Call>, handled: seq<Exchange>, received: nat)

  /** conn: the connection the client has now. Connections given up stay among the links, with whatever is on its
      way. */
  datatype State = State(
    calls: map<Call, Pc>,
    holder: Option<Call>,
    conn: Option<LinkId>,
    links: map<LinkId, Link>)

  datatype Event =
    /** The part of Connect under the mutex: a new connection if there is none, or an error. */
    | Connect(call: Call, made: Option<LinkId>)
    /** Sending; an error leaves the first so many bytes of the frame sent, and gives up the connection. */
    | Send(call: Call, cut: Option<nat>)
    /** Receiving the answer, or an error that gives up the connection. */
    | Receive(call: Call, error: bool)
    /** The next portion of one direction arrives. */
    | Arrive(link: LinkId, up: bool, size: nat)
    /** A dispatcher handles the next message with any result; an error leaves part of the answer sent, and ends it. */
    | Handle(link: LinkId, answer: Bytes, cut: Option<nat>)
    /** A dispatcher ends. */
    | Leave(link: LinkId)
    /** The client gives up an idle connection (closeIfIdle). */
    | Drop

  function NewLink(): Link {
    Link([], [], [], [], true, [], [], 0)
  }

  function ConnectStep(s: State, call: Call, made: Option<LinkId>): State {
    if s.holder.Some? || call !in s.calls || s.calls[call] != Begin then s
    else if s.conn.Some? then s.(calls := s.calls[call := Connected])
    else if made.None? || made.value in s.links then s.(calls := s.calls[call := Gone])
    else
      s.(calls := s.calls[call := Connected], conn := made, links := s.links[made.value := NewLink()])
  }

  /** What of a frame is written before an error. */
  function Start(frame: Bytes, cut: Option<nat>): (b: Bytes)
    ensures b <= frame
  {
    if cut.None? then frame else frame[..Min(cut.value, |frame|)]
  }

  function Ask(link: Link, call: Call, bytes: Bytes): Link {
    link.(up := link.up + bytes, asked := link.asked + [call])
  }

  /** The mutex is taken here; a connection given up since Connect makes the call fail, and so does a message over the
      limit. */
  function SendStep(asks: Asks, s: State, call: Call, cut: Option<nat>): State {
    if s.holder.Some? || call !in s.calls || s.calls[call] != Connected then s
    else if s.conn.None? || s.conn.value !in s.links then s.(calls := s.calls[call := Gone], conn := None)
    else
      var id := s.conn.value;
      var frame := F.Frame(asks(call));
      if frame.None? then s.(calls := s.calls[call := Gone], conn := None)
      else
        var links := s.links[id := Ask(s.links[id], call, Start(frame.value, cut))];
        if cut.Some? then s.(calls := s.calls[call := Gone], conn := None, links := links)
        else s.(calls := s.calls[call := Waiting], holder := Some(call), links := links)
  }

  function End(s: State, call: Call, pc: Pc): State {
    s.(calls := s.calls[call := pc], holder := None)
  }

  /** Nothing happens until a whole message has arrived. */
  function ReceiveStep(s: State, call: Call, error: bool): State {
    if s.holder != Some(call) || s.conn.None? || s.conn.value !in s.links then s
    else
      var id := s.conn.value;
      var link := s.links[id];
      var next := F.Parse(link.downSeen);
      if error || next.TooLarge? then End(s.(conn := None), call, Gone)
      else if next.Ended? then s
      else
        var read := link.(downSeen := next.rest, received := link.received + 1);
        End(s.(links := s.links[id := read]), call, Answered(next.payload, id, link.received))
  }

  function ArriveAt(link: Link, up: bool, size: nat): Link {
    if up then
      var n := Min(size, |link.up|);
      link.(up := link.up[n..], upSeen := link.upSeen + link.up[..n])
    else
      var n := Min(size, |link.down|);
      link.(down := link.down[n..], downSeen := link.downSeen + link.down[..n])
  }

  function HandleAt(link: Link, answer: Bytes, cut: Option<nat>): Link {
    var next := F.Parse(link.upSeen);
    if !link.open || next.Ended? then link
    else if next.TooLarge? then link.(open := false)
    else
      var frame := F.Frame(answer);
      if frame.None? then link.(upSeen := next.rest, open := false)
      else
        link.(upSeen := next.rest, down := link.down + Start(frame.value, cut), open := cut.None?,
              handled := link.handled + [Exchange(next.payload, answer)])
  }

  function OnLink(s: State, id: LinkId, e: Event): State {
    if id !in s.links then s
    else if e.Arrive? then s.(links := s.links[id := ArriveAt(s.links[id], e.up, e.size)])
    else if e.Handle? then s.(links := s.links[id := HandleAt(s.links[id], e.answer, e.cut)])
    else s.(links := s.links[id := s.links[id].(open := false)])
  }

  function Next(asks: Asks, s: State, e: Event): State {
    match e
    case Connect(call, made) => ConnectStep(s, call, made)
    case Send(call, cut) => SendStep(asks, s, call, cut)
    case Receive(call, error) => ReceiveStep(s, call, error)
    case Arrive(link, _, _) => OnLink(s, link, e)
    case Handle(link, _, _) => OnLink(s, link, e)
    case Leave(link) => OnLink(s, link, e)
    case Drop => if s.holder.None? then s.(conn := None) else s
  }

  function Run(asks: Asks, s: State, events: seq<Event>): State
    decreases |events|
  {
    if events == [] then s else Run(asks, Next(asks, s, events[0]), events[1..])
  }

  /** Calls about to start, no connection yet. */
  predicate Init(s: State) {
    (forall c :: c in s.calls ==> s.calls[c] == Begin) && s.holder == None && s.conn == None && s.links == map[]
  }

  // ----- the invariant

  /** The frame of the request that has been sent but not handled, if there is one. */
  function Request(asks: Asks, link: Link): Bytes {
    if |link.handled| < |link.asked| then F.Frame(asks(link.asked[|link.handled|])).GetOr([]) else []
  }

  /** The frame of the answer that has been sent but not read, if there is one. */
  function Reply(link: Link): Bytes {
    if link.received < |link.handled| then F.Frame(link.handled[link.received].answer).GetOr([]) else []
  }

  /** Over every connection at most one request is ahead of the answers read; what is on its way is the start of that
      request's frame, or of its answer's; and whatever was handled was read as the requests sent, in their order. */
  ghost predicate LinkInv(asks: Asks, link: Link) {
    && link.received <= |link.handled| <= |link.asked| <= link.received + 1
    && (forall i :: 0 <= i < |link.handled| ==>
          link.handled[i].request == asks(link.asked[i]) && F.Frame(link.handled[i].answer).Some?)
    && (link.open ==> link.upSeen + link.up <= Request(asks, link))
    && link.downSeen + link.down <= Reply(link)
  }

  /** Over the connection in use only the call that holds the mutex is without its answer, and as long as the dispatcher
      is there, nothing of its request or answer is lost. */
  ghost predicate InUse(asks: Asks, link: Link, holder: Option<Call>) {
    && (holder == None ==> |link.asked| == link.received)
    && (holder.Some? ==> |link.asked| == link.received + 1 && link.asked[link.received] == holder.value
                         && F.Frame(asks(holder.value)).Some?)
    && (link.open ==> link.upSeen + link.up == Request(asks, link) && link.downSeen + link.down == Reply(link))
  }

  /** What a call returns is what the dispatcher answered to the very message the call sent, at its place on the
      connection. */
  ghost predicate IsOwn(asks: Asks, links: map<LinkId, Link>, call: Call, pc: Pc) {
    pc.Answered? ==>
      && pc.link in links && pc.place < |links[pc.link].asked| && pc.place < |links[pc.link].handled|
      && links[pc.link].asked[pc.place] == call
      && links[pc.link].handled[pc.place] == Exchange(asks(call), pc.answer)
  }

  /** The mutex is held by the call that waits, if any. */
  ghost predicate HolderInv(calls: map<Call, Pc>, holder: Option<Call>) {
    && (holder.Some? ==> holder.value in calls && calls[holder.value] == Waiting)
    && (forall c :: c in calls && calls[c] == Waiting ==> holder == Some(c))
  }

  ghost predicate ConnInv(asks: Asks, links: map<LinkId, Link>, conn: Option<LinkId>, holder: Option<Call>) {
    && (holder.Some? ==> conn.Some?)
    && (conn.Some? ==> conn.value in links && InUse(asks, links[conn.value], holder))
  }

  ghost predicate Inv(asks: Asks, s: State) {
    HolderInv(s.calls, s.holder) && LinksInv(asks, s.links, s.calls) && ConnInv(asks, s.links, s.conn, s.holder)
  }

  ghost predicate LinksInv(asks: Asks, links: map<LinkId, Link>, calls: map<Call, Pc>) {
    && (forall id :: id in links ==> LinkInv(asks, links[id]))
    && (forall c :: c in calls ==> IsOwn(asks, links, c, calls[c]))
  }

  /** The history of a connection only grows. */
  predicate GoesOn(link: Link, next: Link) {
    link.asked <= next.asked && link.handled <= next.handled
  }

  /** The start of one frame is read as a message only if it is the whole frame. */
  lemma ReadWhole(payload: Bytes, b: Bytes)
    requires b <= F.Frame(payload).GetOr([]) && F.Parse(b) != F.Ended
    ensures F.Frame(payload).Some? && b == F.Frame(payload).value && F.Parse(b) == F.Message(payload, [])
  {
    if F.Frame(payload).Some? {
      if b != F.Frame(payload).value {
        F.CutFrame(payload, b);
      }
      F.ParseFrame(payload, []);
      assert b + [] == b;
    }
  }

  lemma NothingBehind(seen: Bytes, more: Bytes, all: Bytes)
    requires seen + more <= all && seen == all
    ensures more == []
  {
    assert |seen + more| <= |all|;
  }

  lemma StartOf(seen: Bytes, more: Bytes, all: Bytes)
    requires seen + more <= all
    ensures seen <= all
  {
    assert seen == (seen + more)[..|seen|] == all[..|seen + more|][..|seen|];
  }

  // ----- each step keeps it

  lemma ArriveSame(link: Link, up: bool, size: nat)
    ensures var next := ArriveAt(link, up, size);
            && next.upSeen + next.up == link.upSeen + link.up && next.downSeen + next.down == link.downSeen + link.down
            && next.asked == link.asked && next.handled == link.handled && next.received == link.received
            && next.open == link.open
  {
  }

  lemma ArriveInv(asks: Asks, link: Link, up: bool, size: nat, holder: Option<Call>)
    requires LinkInv(asks, link)
    ensures var next := ArriveAt(link, up, size);
            LinkInv(asks, next) && GoesOn(link, next) && (InUse(asks, link, holder) ==> InUse(asks, next, holder))
  {
    hide ArriveAt;
    ArriveSame(link, up, size);
  }

  lemma HandleInv(asks: Asks, link: Link, answer: Bytes, cut: Option<nat>, holder: Option<Call>)
    requires LinkInv(asks, link)
    ensures var next := HandleAt(link, answer, cut);
            LinkInv(asks, next) && GoesOn(link, next) && (InUse(asks, link, holder) ==> InUse(asks, next, holder))
  {
    var parsed := F.Parse(link.upSeen);
    if link.open && !parsed.Ended? {
      StartOf(link.upSeen, link.up, Request(asks, link));
      var call := link.asked[|link.handled|];
      ReadWhole(asks(call), link.upSeen);
      NothingBehind(link.upSeen, link.up, Request(asks, link));
      assert link.downSeen + link.down == [];
      if F.Frame(answer).Some? {
        Answering(asks, link, call, answer, Start(F.Frame(answer).value, cut), cut.None?, HandleAt(link, answer, cut));
      }
    }
  }

  lemma Answering(asks: Asks, link: Link, call: Call, answer: Bytes, sent: Bytes, open: bool, next: Link)
    requires LinkInv(asks, link) && |link.handled| < |link.asked| && call == link.asked[|link.handled|] && link.up == []
    requires F.Frame(answer).Some? && sent <= F.Frame(answer).value && link.downSeen + link.down == []
    requires next == link.(upSeen := [], down := link.down + sent, open := open,
                           handled := link.handled + [Exchange(asks(call), answer)])
    ensures LinkInv(asks, next) && GoesOn(link, next)
    ensures next.downSeen + next.down == sent && Reply(next) == F.Frame(answer).value
    ensures next.upSeen + next.up == [] == Request(asks, next)
  {
    var n := |link.handled|;
    assert link.received == n && |link.asked| == n + 1;
    assert next.handled[n] == Exchange(asks(call), answer);
    assert next.downSeen == [] && next.down == sent && next.upSeen == [] && next.up == [];
  }

  lemma LinksGoOn(asks: Asks, links: map<LinkId, Link>, calls: map<Call, Pc>, id: LinkId, next: Link)
    requires LinksInv(asks, links, calls) && id in links && GoesOn(links[id], next) && LinkInv(asks, next)
    ensures LinksInv(asks, links[id := next], calls)
  {
    forall c | c in calls
      ensures IsOwn(asks, links[id := next], c, calls[c])
    {
      assert IsOwn(asks, links, c, calls[c]);
    }
  }

  lemma CallGoesOn(asks: Asks, links: map<LinkId, Link>, calls: map<Call, Pc>, call: Call, pc: Pc)
    requires LinksInv(asks, links, calls) && IsOwn(asks, links, call, pc)
    ensures LinksInv(asks, links, calls[call := pc])
  {
  }

  lemma OnLinkInv(asks: Asks, s: State, id: LinkId, e: Event)
    requires Inv(asks, s)
    ensures Inv(asks, OnLink(s, id, e))
  {
    hide HolderInv, IsOwn;
    if id in s.links {
      var link, next := s.links[id], OnLink(s, id, e).links[id];
      if e.Arrive? {
        ArriveInv(asks, link, e.up, e.size, s.holder);
      } else if e.Handle? {
        HandleInv(asks, link, e.answer, e.cut, s.holder);
      }
      LinksGoOn(asks, s.links, s.calls, id, next);
    }
  }

  lemma AskInv(asks: Asks, link: Link, call: Call, cut: Option<nat>)
    requires LinkInv(asks, link) && InUse(asks, link, None) && F.Frame(asks(call)).Some?
    ensures var next := Ask(link, call, Start(F.Frame(asks(call)).value, cut));
            LinkInv(asks, next) && GoesOn(link, next) && (cut.None? ==> InUse(asks, next, Some(call)))
  {
    var sent := Start(F.Frame(asks(call)).value, cut);
    var next := Ask(link, call, sent);
    if link.open {
      assert link.upSeen + link.up == [];
      assert next.upSeen + next.up == sent;
    }
  }

  lemma HolderChanges(calls: map<Call, Pc>, holder: Option<Call>, call: Call, pc: Pc)
    requires HolderInv(calls, holder) && call in calls && (holder == None || holder == Some(call)) && pc != Waiting
    ensures HolderInv(calls[call := pc], None)
  {
  }

  lemma SendInv(asks: Asks, s: State, call: Call, cut: Option<nat>)
    requires Inv(asks, s)
    ensures Inv(asks, SendStep(asks, s, call, cut))
  {
    hide LinkInv, InUse;
    if s.holder.None? && call in s.calls && s.calls[call] == Connected {
      if s.conn.Some? && F.Frame(asks(call)).Some? {
        var id := s.conn.value;
        var next := Ask(s.links[id], call, Start(F.Frame(asks(call)).value, cut));
        AskInv(asks, s.links[id], call, cut);
        LinksGoOn(asks, s.links, s.calls, id, next);
        CallGoesOn(asks, s.links[id := next], s.calls, call, if cut.Some? then Gone else Waiting);
        if cut.Some? {
          HolderChanges(s.calls, s.holder, call, Gone);
        }
      } else {
        HolderChanges(s.calls, s.holder, call, Gone);
        CallGoesOn(asks, s.links, s.calls, call, Gone);
      }
    }
  }

  /** Reading an answer over the connection in use. */
  lemma ReadInv(asks: Asks, link: Link, call: Call)
    requires LinkInv(asks, link) && InUse(asks, link, Some(call)) && F.Parse(link.downSeen) != F.Ended
    ensures var read := F.Parse(link.downSeen);
            && read.Message?
            && link.received < |link.handled| && link.handled[link.received] == Exchange(asks(call), read.payload)
            && link.received < |link.asked| && link.asked[link.received] == call
            && var next := link.(downSeen := read.rest, received := link.received + 1);
            LinkInv(asks, next) && GoesOn(link, next) && InUse(asks, next, None)
  {
    StartOf(link.downSeen, link.down, Reply(link));
    ReadWhole(link.handled[link.received].answer, link.downSeen);
    NothingBehind(link.downSeen, link.down, Reply(link));
  }

  /** The call ends with the answer read over the connection in use. */
  lemma EndInv(asks: Asks, s: State, id: LinkId, next: Link, call: Call, pc: Pc)
    requires Inv(asks, s) && s.holder == Some(call) && s.conn == Some(id)
    requires GoesOn(s.links[id], next) && LinkInv(asks, next) && InUse(asks, next, None)
    requires pc != Waiting && IsOwn(asks, s.links[id := next], call, pc)
    ensures Inv(asks, End(s.(links := s.links[id := next]), call, pc))
  {
    LinksGoOn(asks, s.links, s.calls, id, next);
    CallGoesOn(asks, s.links[id := next], s.calls, call, pc);
    HolderChanges(s.calls, s.holder, call, pc);
  }

  lemma GiveUpInv(asks: Asks, s: State, call: Call)
    requires Inv(asks, s) && s.holder == Some(call)
    ensures Inv(asks, End(s.(conn := None), call, Gone))
  {
    HolderChanges(s.calls, s.holder, call, Gone);
    CallGoesOn(asks, s.links, s.calls, call, Gone);
  }

  lemma LinkOf(asks: Asks, s: State, id: LinkId)
    requires Inv(asks, s) && s.conn == Some(id)
    ensures id in s.links && LinkInv(asks, s.links[id]) && InUse(asks, s.links[id], s.holder)
  {
  }

  lemma ReadStepInv(asks: Asks, s: State, call: Call, id: LinkId)
    requires Inv(asks, s) && s.holder == Some(call) && s.conn == Some(id)
    requires id in s.links && !F.Parse(s.links[id].downSeen).Ended?
    ensures Inv(asks, ReceiveStep(s, call, false))
  {
    hide Inv, LinkInv, InUse;
    var link := s.links[id];
    LinkOf(asks, s, id);
    var read := F.Parse(link.downSeen);
    ReadInv(asks, link, call);
    var next := link.(downSeen := read.rest, received := link.received + 1);
    EndInv(asks, s, id, next, call, Answered(read.payload, id, link.received));
  }

  lemma ReceiveInv(asks: Asks, s: State, call: Call, error: bool)
    requires Inv(asks, s)
    ensures Inv(asks, ReceiveStep(s, call, error))
  {
    if s.holder == Some(call) {
      if error {
        GiveUpInv(asks, s, call);
      } else if !F.Parse(s.links[s.conn.value].downSeen).Ended? {
        ReadStepInv(asks, s, call, s.conn.value);
      }
    }
  }

  lemma ConnectInv(asks: Asks, s: State, call: Call, made: Option<LinkId>)
    requires Inv(asks, s)
    ensures Inv(asks, ConnectStep(s, call, made))
  {
    var added := NewLink();
    assert LinkInv(asks, added) && InUse(asks, added, None);
    if s.holder.None? && call in s.calls && s.calls[call] == Begin {
      if s.conn.None? && made.Some? && made.value !in s.links {
        LinkAdded(asks, s.links, s.calls, made.value, added);
        CallGoesOn(asks, s.links[made.value := added], s.calls, call, Connected);
      } else {
        CallGoesOn(asks, s.links, s.calls, call, if s.conn.Some? then Connected else Gone);
      }
    }
  }

  lemma LinkAdded(asks: Asks, links: map<LinkId, Link>, calls: map<Call, Pc>, id: LinkId, link: Link)
    requires LinksInv(asks, links, calls) && id !in links && LinkInv(asks, link)
    ensures LinksInv(asks, links[id := link], calls)
  {
    forall c | c in calls
      ensures IsOwn(asks, links[id := link], c, calls[c])
    {
      assert IsOwn(asks, links, c, calls[c]);
    }
  }

  lemma NextInv(asks: Asks, s: State, e: Event)
    requires Inv(asks, s)
    ensures Inv(asks, Next(asks, s, e))
  {
    match e
    case Connect(call, made) => ConnectInv(asks, s, call, made);
    case Send(call, cut) => SendInv(asks, s, call, cut);
    case Receive(call, error) => ReceiveInv(asks, s, call, error);
    case Arrive(link, _, _) => OnLinkInv(asks, s, link, e);
    case Handle(link, _, _) => OnLinkInv(asks, s, link, e);
    case Leave(link) => OnLinkInv(asks, s, link, e);
    case Drop =>
  }

  lemma {:induction false} RunInv(asks: Asks, s: State, events: seq<Event>)
    requires Inv(asks, s)
    ensures Inv(asks, Run(asks, s, events))
    decreases |events|
  {
    if events != [] {
      NextInv(asks, s, events[0]);
      RunInv(asks, Next(asks, s, events[0]), events[1..]);
    }
  }

  // ----- what holds in every run

  /** Whatever goes wrong, in whatever portions the bytes arrive and however calls interleave, the answer a call returns
      is the one the dispatcher gave to the message this call sent. */
  lemma AnswerIsOwn(asks: Asks, start: State, events: seq<Event>, call: Call)
    requires Init(start) && call in Run(asks, start, events).calls && Run(asks, start, events).calls[call].Answered?
    ensures var s := Run(asks, start, events);
            IsOwn(asks, s.links, call, s.calls[call])
  {
    RunInv(asks, start, events);
  }

  /** What a dispatcher reads over any connection, also one the client has given up, are the messages sent over it, in
      the order they were sent. */
  lemma HandledAsSent(asks: Asks, start: State, events: seq<Event>, id: LinkId, i: nat)
    requires Init(start) && id in Run(asks, start, events).links && i < |Run(asks, start, events).links[id].handled|
    ensures var link := Run(asks, start, events).links[id];
            i < |link.asked| && link.handled[i].request == asks(link.asked[i])
  {
    RunInv(asks, start, events);
    assert LinkInv(asks, Run(asks, start, events).links[id]);
  }

  /** At least as much as any frame is long. */
  const ALL: nat := F.FRAME_LIMIT + 4

  /** What is on its way up arrives, is handled, and what is then on its way down arrives. */
  function Serve(link: Link, answer: Bytes): Link {
    ArriveAt(HandleAt(ArriveAt(link, true, ALL), answer, None), false, ALL)
  }

  lemma AllArrives(link: Link, up: bool)
    requires |if up then link.up else link.down| <= ALL
    ensures var next := ArriveAt(link, up, ALL);
            && next == if up then link.(up := [], upSeen := link.upSeen + link.up)
                       else link.(down := [], downSeen := link.downSeen + link.down)
  {
  }

  lemma PartLength(seen: Bytes, more: Bytes, all: Bytes)
    requires seen + more == all
    ensures |more| <= |all|
  {
  }

  lemma FrameRead(payload: Bytes)
    requires |payload| <= F.FRAME_LIMIT
    ensures F.Frame(payload).Some? && F.Parse(F.Frame(payload).value) == F.Message(payload, [])
    ensures |F.Frame(payload).value| <= ALL
  {
    F.ParseFrame(payload, []);
    assert F.Frame(payload).value + [] == F.Frame(payload).value;
  }

  /** The answer to the request that is on its way, or the one that is on its way already. */
  function NextReply(link: Link, answer: Bytes): Bytes {
    if link.received < |link.handled| then link.handled[link.received].answer else answer
  }

  lemma NothingToHandle(link: Link, answer: Bytes)
    requires link.upSeen == []
    ensures HandleAt(link, answer, None) == link
  {
  }

  lemma RequestHandled(link: Link, payload: Bytes, answer: Bytes)
    requires link.open && |payload| <= F.FRAME_LIMIT && link.upSeen == F.Frame(payload).value
    requires F.Frame(answer).Some?
    ensures var next := HandleAt(link, answer, None);
            && next.down == link.down + F.Frame(answer).value
            && next.downSeen == link.downSeen && next.received == link.received
  {
    hide F.Frame, F.Parse;
    FrameRead(payload);
  }

  lemma Served(asks: Asks, link: Link, call: Call, answer: Bytes)
    requires LinkInv(asks, link) && InUse(asks, link, Some(call)) && link.open && |answer| <= F.FRAME_LIMIT
    ensures var next := Serve(link, answer);
            F.Parse(next.downSeen) == F.Message(NextReply(link, answer), []) && next.received == link.received
  {
    hide F.Frame, F.Parse, HandleAt, ArriveAt;
    PartLength(link.upSeen, link.up, Request(asks, link));
    PartLength(link.downSeen, link.down, Reply(link));
    FrameFits(asks(call));
    FrameRead(asks(call));
    FrameRead(answer);
    var arrived := link.(up := [], upSeen := link.upSeen + link.up);
    AllArrives(link, true);
    var handled := HandleAt(arrived, answer, None);
    if link.received < |link.handled| {
      FrameFits(link.handled[link.received].answer);
      FrameRead(link.handled[link.received].answer);
      NothingToHandle(arrived, answer);
    } else {
      assert arrived.upSeen == F.Frame(asks(call)).value;
      assert link.downSeen == [] && link.down == [];
      RequestHandled(arrived, asks(call), answer);
    }
    assert handled.downSeen + handled.down == F.Frame(NextReply(link, answer)).value;
    AllArrives(handled, false);
  }

  lemma FrameFits(payload: Bytes)
    requires F.Frame(payload).Some?
    ensures |payload| <= F.FRAME_LIMIT
  {
  }

  function Delivery(id: LinkId, call: Call, answer: Bytes): seq<Event> {
    [Arrive(id, true, ALL), Handle(id, answer, None), Arrive(id, false, ALL), Receive(call, false)]
  }

  lemma {:induction false} RunFirst(asks: Asks, s: State, e: Event, events: seq<Event>)
    ensures Run(asks, s, [e] + events) == Run(asks, Next(asks, s, e), events)
  {
    assert ([e] + events)[1..] == events;
  }

  lemma {:induction false} RunFour(asks: Asks, s: State, a: Event, b: Event, c: Event, d: Event)
    ensures Run(asks, s, [a, b, c, d]) == Next(asks, Next(asks, Next(asks, Next(asks, s, a), b), c), d)
  {
    assert [a, b, c, d] == [a] + [b, c, d] && [b, c, d] == [b] + [c, d] && [c, d] == [c] + [d] && [d] == [d] + [];
    RunFirst(asks, s, a, [b, c, d]);
    RunFirst(asks, Next(asks, s, a), b, [c, d]);
    RunFirst(asks, Next(asks, Next(asks, s, a), b), c, [d]);
    RunFirst(asks, Next(asks, Next(asks, Next(asks, s, a), b), c), d, []);
  }

  function WithLink(s: State, id: LinkId, link: Link): State {
    s.(links := s.links[id := link])
  }

  lemma LinkChanges(s: State, id: LinkId, link: Link, e: Event, next: Link)
    requires e.Arrive? || e.Handle?
    requires next == if e.Arrive? then ArriveAt(link, e.up, e.size) else HandleAt(link, e.answer, e.cut)
    ensures OnLink(WithLink(s, id, link), id, e) == WithLink(s, id, next)
  {
    assert s.links[id := link][id := next] == s.links[id := next];
  }

  lemma ServedState(asks: Asks, s: State, id: LinkId, call: Call, answer: Bytes)
    requires id in s.links
    ensures Run(asks, s, Delivery(id, call, answer))
         == ReceiveStep(WithLink(s, id, Serve(s.links[id], answer)), call, false)
  {
    hide ArriveAt, HandleAt, OnLink, WithLink, Run;
    var up, handle, down := Arrive(id, true, ALL), Handle(id, answer, None), Arrive(id, false, ALL);
    RunFour(asks, s, up, handle, down, Receive(call, false));
    var arrived := ArriveAt(s.links[id], true, ALL);
    var handled := HandleAt(arrived, answer, None);
    SameLink(s, id);
    LinkChanges(s, id, s.links[id], up, arrived);
    LinkChanges(s, id, arrived, handle, handled);
    LinkChanges(s, id, handled, down, Serve(s.links[id], answer));
  }

  lemma SameLink(s: State, id: LinkId)
    requires id in s.links
    ensures WithLink(s, id, s.links[id]) == s
  {
    assert s.links[id := s.links[id]] == s.links;
  }

  /** A call that waits gets its answer as soon as its dispatcher has handled what is on its way: that is its request,
      and nothing stands before it. */
  lemma AnswerComes(asks: Asks, start: State, events: seq<Event>, call: Call, answer: Bytes)
    requires Init(start) && |answer| <= F.FRAME_LIMIT
    requires var s := Run(asks, start, events);
             s.holder == Some(call) && s.conn.Some? && s.conn.value in s.links && s.links[s.conn.value].open
    ensures var s := Run(asks, start, events);
            var id, link := s.conn.value, s.links[s.conn.value];
            var after := Run(asks, s, Delivery(id, call, answer));
            && call in after.calls && after.holder == None
            && after.calls[call] == Answered(NextReply(link, answer), id, link.received)
  {
    hide LinkInv, Serve;
    RunInv(asks, start, events);
    var s := Run(asks, start, events);
    var id := s.conn.value;
    Served(asks, s.links[id], call, answer);
    ServedState(asks, s, id, call, answer);
  }

  /** A call that nobody is in front of, over the connection there is or a new one, gets through: its message is sent,
      and the answer the dispatcher gives to it is returned. */
  lemma CallGetsThrough(asks: Asks, start: State, events: seq<Event>, call: Call, made: LinkId, answer: Bytes)
    requires Init(start) && |answer| <= F.FRAME_LIMIT && |asks(call)| <= F.FRAME_LIMIT
    requires var s := Run(asks, start, events);
             && s.holder == None && call in s.calls && s.calls[call] == Begin
             && if s.conn.Some? then s.conn.value in s.links && s.links[s.conn.value].open else made !in s.links
    ensures var s := Run(asks, start, events);
            var id := if s.conn.Some? then s.conn.value else made;
            var place := if s.conn.Some? then s.links[id].received else 0;
            var after := Run(asks, s, [Connect(call, Some(made)), Send(call, None)] + Delivery(id, call, answer));
            && call in after.calls && after.holder == None && after.calls[call] == Answered(answer, id, place)
  {
    RunInv(asks, start, events);
    var s := Run(asks, start, events);
    var id := if s.conn.Some? then s.conn.value else made;
    var connected := ConnectStep(s, call, Some(made));
    ConnectInv(asks, s, call, Some(made));
    Connects(asks, s, call, made);
    Sends(asks, connected, call, id);
    var waiting := SendStep(asks, connected, call, None);
    SendInv(asks, connected, call, None);
    GetsAnswer(asks, waiting, id, call, answer);
    TwoThen(asks, s, Connect(call, Some(made)), Send(call, None), Delivery(id, call, answer));
  }

  lemma {:induction false} TwoThen(asks: Asks, s: State, a: Event, b: Event, rest: seq<Event>)
    ensures Run(asks, s, [a, b] + rest) == Run(asks, Next(asks, Next(asks, s, a), b), rest)
  {
    assert [a, b] + rest == [a] + ([b] + rest);
    RunFirst(asks, s, a, [b] + rest);
    RunFirst(asks, Next(asks, s, a), b, rest);
  }

  lemma Connects(asks: Asks, s: State, call: Call, made: LinkId)
    requires Inv(asks, s) && s.holder == None && call in s.calls && s.calls[call] == Begin
    requires s.conn.Some? || made !in s.links
    ensures var id := if s.conn.Some? then s.conn.value else made;
            var t := ConnectStep(s, call, Some(made));
            && t.calls == s.calls[call := Connected] && t.holder == None && t.conn == Some(id) && id in t.links
            && t.links[id] == if s.conn.Some? then s.links[id] else NewLink()
  {
  }

  lemma Sends(asks: Asks, s: State, call: Call, id: LinkId)
    requires Inv(asks, s) && s.holder == None && s.conn == Some(id) && id in s.links
    requires call in s.calls && s.calls[call] == Connected && |asks(call)| <= F.FRAME_LIMIT
    ensures var t := SendStep(asks, s, call, None);
            && t.holder == Some(call) && t.conn == Some(id) && id in t.links && t.links[id].open == s.links[id].open
            && t.links[id].received == s.links[id].received == |t.links[id].handled|
  {
    LinkOf(asks, s, id);
    FrameRead(asks(call));
  }

  lemma GetsAnswer(asks: Asks, s: State, id: LinkId, call: Call, answer: Bytes)
    requires Inv(asks, s) && s.holder == Some(call) && s.conn == Some(id) && id in s.links && s.links[id].open
    requires |answer| <= F.FRAME_LIMIT && s.links[id].received == |s.links[id].handled|
    ensures var after := Run(asks, s, Delivery(id, call, answer));
            && call in after.calls && after.holder == None
            && after.calls[call] == Answered(answer, id, s.links[id].received)
  {
    LinkOf(asks, s, id);
    Served(asks, s.links[id], call, answer);
    ServedState(asks, s, id, call, answer);
  }

  /** A dispatcher that is sent a length over the limit, or that cannot send its answer, ends without handling it. */
  lemma DispatcherEnds(asks: Asks, s: State, id: LinkId, answer: Bytes)
    requires id in s.links && s.links[id].open && F.Parse(s.links[id].upSeen) != F.Ended
    requires F.Parse(s.links[id].upSeen).TooLarge? || |answer| > F.FRAME_LIMIT
    ensures var next := Next(asks, s, Handle(id, answer, None));
            && id in next.links && !next.links[id].open && next.links[id].handled == s.links[id].handled
            && next.links[id].down == s.links[id].down
  {
  }

  /** Only a connection no call is waiting on is given up as idle, and the next call makes a new one. */
  lemma IdleGivenUp(asks: Asks, s: State, call: Call, made: LinkId)
    requires call in s.calls && s.calls[call] == Begin && made !in s.links
    ensures s.holder.Some? ==> Next(asks, s, Drop) == s
    ensures s.holder == None ==>
              var next := Next(asks, Next(asks, s, Drop), Connect(call, Some(made)));
              next == s.(calls := s.calls[call := Connected], conn := Some(made), links := s.links[made := NewLink()])
  {
  }
}
