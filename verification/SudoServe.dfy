/** The elevated dispatcher: clients one at a time until one presents the token, then that client's session
    (ServeElevated, acceptSudoHello and serveSudoSession, vfs/sudo_elevated.go). */
module SudoServe {
  import opened Base

  datatype Command = Hello(token: string) | Ping | Operation(text: string)

  datatype Response = Empty | AccessDenied | AlreadyAuthenticated | NotSupported | Result(text: string)

  /** A client: the messages that will arrive from it before it goes away or falls silent, and how many answers can be
      sent to it before sending fails. */
  datatype Client = Client(messages: seq<Command>, takes: nat)

  /** The handler of the operations, if the dispatcher has one. */
  type Handler = Option<string -> string>

  /** What the handler was called with, and what was sent to each client. */
  datatype Outcome = Outcome(handled: seq<string>, sent: seq<Response>, authenticated: bool)

  function Answer(handle: Handler, c: Command): Response {
    match c
    case Ping => Empty
    case Hello(_) => AlreadyAuthenticated
    case Operation(text) => if handle.None? then NotSupported else Result(handle.value(text))
  }

  /** The operations among the messages, where there is a handler. */
  function Operations(handle: Handler, messages: seq<Command>): seq<string>
    decreases |messages|
  {
    if messages == [] then []
    else
      (if messages[0].Operation? && handle.Some? then [messages[0].text] else []) + Operations(handle, messages[1..])
  }

  function Answers(handle: Handler, messages: seq<Command>): (r: seq<Response>)
    ensures |r| == |messages|
  {
    seq(|messages|, i requires 0 <= i < |messages| => Answer(handle, messages[i]))
  }

  /** Whether the client is accepted: it presents the token and can be told so. */
  predicate IsAccepted(client: Client, token: string) {
    client.messages != [] && client.messages[0] == Hello(token) && client.takes > 0
  }

  /** Said of each message by itself: a ping is answered with nothing, a second hello is refused, and an operation gets
      the result of the handler, if there is one. */
  predicate IsAnswered(handle: Handler, c: Command, r: Response) {
    && (c.Ping? ==> r == Empty)
    && (c.Hello? ==> r == AlreadyAuthenticated)
    && (c.Operation? && handle.None? ==> r == NotSupported)
    && (c.Operation? && handle.Some? ==> r == Result(handle.value(c.text)))
  }

  /** What is sent in a session: that the hello is accepted, and then the answers to the first n messages, in their
      order. */
  predicate AreAnswers(handle: Handler, messages: seq<Command>, n: nat, sent: seq<Response>) {
    && n <= |messages| && |sent| == n + 1 && sent[0] == Empty
    && forall i :: 0 <= i < n ==> IsAnswered(handle, messages[i], sent[i + 1])
  }

  lemma AnswersAre(handle: Handler, messages: seq<Command>, n: nat)
    requires n <= |messages|
    ensures AreAnswers(handle, messages, n, [Empty] + Answers(handle, messages[..n]))
  {
  }

  /** texts are the texts of the operation messages, which are at these places, in their order. */
  predicate AreAt(messages: seq<Command>, texts: seq<string>, places: seq<nat>) {
    && |places| == |texts|
    && (forall k :: 0 <= k < |places| ==> places[k] < |messages| && messages[places[k]] == Operation(texts[k]))
    && (forall k, l :: 0 <= k < l < |places| ==> places[k] < places[l])
    && (forall i :: 0 <= i < |messages| && messages[i].Operation? ==> i in places)
  }

  ghost predicate AreOperationsOf(handle: Handler, messages: seq<Command>, texts: seq<string>) {
    if handle.None? then texts == [] else exists places: seq<nat> :: AreAt(messages, texts, places)
  }

  lemma {:induction false} OperationsAre(handle: Handler, messages: seq<Command>)
    ensures AreOperationsOf(handle, messages, Operations(handle, messages))
  {
    if handle.None? {
      NoOperations(handle, messages);
    } else {
      var places := PlacesOf(handle, messages);
    }
  }

  lemma {:induction false} NoOperations(handle: Handler, messages: seq<Command>)
    requires handle.None?
    ensures Operations(handle, messages) == []
    decreases |messages|
  {
    if messages != [] {
      NoOperations(handle, messages[1..]);
    }
  }

  lemma {:induction false} PlacesOf(handle: Handler, messages: seq<Command>) returns (places: seq<nat>)
    requires handle.Some?
    ensures AreAt(messages, Operations(handle, messages), places)
    decreases |messages|
  {
    if messages == [] {
      places := [];
    } else {
      var last := |messages| - 1;
      var init, c := messages[..last], messages[last];
      assert messages == init + [c];
      OperationsSnoc(handle, init, c);
      places := PlacesOf(handle, init);
      if c.Operation? {
        places := places + [last];
      }
    }
  }

  lemma OperationsSnoc(handle: Handler, messages: seq<Command>, c: Command)
    ensures Operations(handle, messages + [c])
         == Operations(handle, messages) + if c.Operation? && handle.Some? then [c.text] else []
    decreases |messages|
  {
    if messages == [] {
      assert [c][1..] == [];
    } else {
      assert (messages + [c])[0] == messages[0] && (messages + [c])[1..] == messages[1..] + [c];
      OperationsSnoc(handle, messages[1..], c);
    }
  }

  lemma NoMessages(handle: Handler)
    ensures Operations(handle, []) == [] && Answers(handle, []) == []
  {
  }

  class Dispatcher {
    const token: string
    const handle: Handler

    /** What has been done so far: operations handled, clients accepted from, and what was sent to each. */
    var handled: seq<string>
    var sent: seq<seq<Response>>

    constructor (token: string, handle: Handler)
      ensures this.token == token && this.handle == handle && handled == [] && sent == []
    {
      this.token, this.handle := token, handle;
      handled, sent := [], [];
    }

    /** acceptSudoHello */
    method AcceptHello(client: Client) returns (accepted: bool)
      modifies this`sent
      ensures accepted <==> IsAccepted(client, token)
      ensures accepted <==> client.messages != [] && client.messages[0] == Hello(token) && client.takes > 0
      ensures client.messages == [] || client.takes == 0 ==> sent == old(sent) + [[]]
      ensures client.messages != [] && client.takes > 0 ==>
                sent == old(sent) + [[if client.messages[0] == Hello(token) then Empty else AccessDenied]]
    {
      if client.messages == [] {
        sent := sent + [[]];
        return false;
      }
      if client.messages[0] != Hello(token) {
        sent := sent + [if client.takes > 0 then [AccessDenied] else []];
        return false;
      }
      sent := sent + [if client.takes > 0 then [Empty] else []];
      accepted := client.takes > 0;
    }

    /** serveSudoSession: answers message after message until the client is gone or cannot be answered; n is how many
        were answered. */
    method ServeSession(client: Client) returns (n: nat)
      requires IsAccepted(client, token) && sent != [] && sent[|sent| - 1] == [Empty]
      modifies this`handled, this`sent
      ensures var messages := client.messages[1..];
              && n == Min(|messages|, client.takes - 1)
              && sent == old(sent[..|sent| - 1]) + [[Empty] + Answers(handle, messages[..n])]
              && handled == old(handled) + Operations(handle, messages[..Min(n + 1, |messages|)])
      ensures AreAnswers(handle, client.messages[1..], n, sent[|sent| - 1])
      ensures var messages := client.messages[1..];
              exists texts :: handled == old(handled) + texts
                           && AreOperationsOf(handle, messages[..Min(n + 1, |messages|)], texts)
    {
      hide AreAnswers, AreOperationsOf, Operations, Answer;
      var messages := client.messages[1..];
      NoMessages(handle);
      var answers: seq<Response> := [Empty];
      n := 0;
      while n < |messages|
        invariant n <= |messages| && n <= client.takes - 1 && sent == old(sent)
        invariant answers == [Empty] + Answers(handle, messages[..n])
        invariant handled == old(handled) + Operations(handle, messages[..n])
      {
        var c := messages[n];
        assert messages[..n + 1] == messages[..n] + [c];
        OperationsSnoc(handle, messages[..n], c);
        if c.Operation? && handle.Some? {
          handled := handled + [c.text];
        }
        if n + 1 >= client.takes {
          break;
        }
        answers := answers + [Answer(handle, c)];
        n := n + 1;
      }
      sent := sent[..|sent| - 1] + [answers];
      AnswersAre(handle, messages, n);
      OperationsAre(handle, messages[..Min(n + 1, |messages|)]);
    }

    /** ServeElevated: the clients in the order they come. The handler is called for the operations of one session only,
        that of the first client that is accepted; every other client before it gets at most a refusal, and none after
        it is served at all. */
    method ServeElevated(clients: seq<Client>) returns (served: Option<nat>)
      requires handled == [] && sent == []
      modifies this`handled, this`sent
      ensures served == None ==>
                && handled == [] && |sent| == |clients|
                && forall i :: 0 <= i < |clients| ==> !IsAccepted(clients[i], token)
      ensures served.Some? ==>
                && served.value < |clients| && IsAccepted(clients[served.value], token)
                && (forall i :: 0 <= i < served.value ==> !IsAccepted(clients[i], token))
                && |sent| == served.value + 1
                && var messages := clients[served.value].messages[1..];
                   var n := Min(|messages|, clients[served.value].takes - 1);
                && sent[served.value] == [Empty] + Answers(handle, messages[..n])
                && handled == Operations(handle, messages[..Min(n + 1, |messages|)])
                && AreAnswers(handle, messages, n, sent[served.value])
                && AreOperationsOf(handle, messages[..Min(n + 1, |messages|)], handled)
      ensures forall i :: 0 <= i < |sent| && served != Some(i) ==> sent[i] in [[], [AccessDenied]]
    {
      hide AreAnswers, AreOperationsOf, Operations, Answers;
      for i := 0 to |clients|
        invariant handled == [] && |sent| == i
        invariant forall k :: 0 <= k < i ==> !IsAccepted(clients[k], token)
        invariant forall k :: 0 <= k < i ==> sent[k] in [[], [AccessDenied]]
      {
        var accepted := AcceptHello(clients[i]);
        if accepted {
          var n := ServeSession(clients[i]);
          ghost var texts :| handled == [] + texts
            && AreOperationsOf(handle, clients[i].messages[1..][..Min(n + 1, |clients[i].messages[1..]|)], texts);
          assert handled == texts;
          return Some(i);
        }
      }
      served := None;
    }
  }
}
