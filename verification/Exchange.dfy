/**
 The server and any number of clients, over channels that deliver every buffer in order: each client's
 requests are answered one by one, and its chats arrive complete and in order.
 */
module Exchange {
  import opened Basics
  import opened Messages
  import opened Serialization
  import opened Sessions
  import opened Reception
  import opened Protocol
  import opened ServerTraffic
  import opened ServerRuns
  import opened Client

  /**
   A client and its connection. The channel to the server is the log `wire` of the buffers sent and the
   number `handled` of those the server has taken; the channel back is the log in the server's session
   and the number `read` of those the client has taken. The rest is history: the requests made, the
   server's response to each one handled and the state it was computed in, the chats owed to the
   client, the chats it got out of its inbox, and the result of each completed call.
   */
  datatype Conn = Conn(
    asked: seq<Message>, wire: seq<Buffer>, handled: nat, answers: seq<Message>, states: seq<State>,
    owed: seq<Message>, read: nat, inbox: seq<Message>, taken: seq<Message>, results: seq<Message>, waiting: bool)

  datatype World = World(server: State, conns: map<int, Conn>)

  /** The interleaved steps; a call of `SendRequest` is an `Ask` and then one `Take` for each buffer received. */
  datatype Action =
    | Connect(fd: int)
    | Ask(fd: int, request: Message, scratch: Buffer)
    | Serve(fd: int)
    | Take(fd: int)
    | Unread(fd: int)
    | Leave(fd: int)

  ghost function Start(hash: Text -> Text): World {
    World(Initial(hash), map[])
  }

  predicate Enabled(w: World, a: Action) {
    match a
    case Connect(fd) => fd != -1 && fd !in w.server.book.sessions
    case Ask(fd, request, scratch) =>
      fd in w.conns && !w.conns[fd].waiting && IsRequestId(request.TypeId()) && Serialized(request, scratch).ok
    case Serve(fd) => fd in w.conns && w.conns[fd].handled < |w.conns[fd].wire| && fd in w.server.book.sessions
    case Take(fd) => fd in w.conns && w.conns[fd].waiting && w.conns[fd].read < |w.server.book.Log(fd)|
    case Unread(fd) => fd in w.conns && !w.conns[fd].waiting
    case Leave(fd) => fd in w.conns
  }

  /** The event that serving the next buffer of `fd` is for the server. */
  function Delivery(w: World, fd: int): Event
    requires Enabled(w, Serve(fd))
  {
    Received(fd, w.conns[fd].wire[w.conns[fd].handled], true, true)
  }

  /** Whom a chat request addresses, if it is answered with success: everyone logged in as the recipient. */
  function Owed(w: World, e: Event, fd: int): seq<Message>
    requires e.Received? && e.fd in w.server.book.sessions
  {
    match Request(e.data)
    case Some(SendChat(to, content)) =>
      if Answer(w.server, e) == Success && w.server.book.Owns(fd, to)
      then [ReceiveChat(w.server.book.sessions[e.fd].username, content)] else []
    case _ => []
  }

  function Served(w: World, e: Event, fd: int, c: Conn): Conn
    requires e.Received? && e.fd in w.server.book.sessions
  {
    var c' := c.(owed := c.owed + Owed(w, e, fd));
    if fd == e.fd then
      c'.(handled := c.handled + 1, answers := c.answers + [Answer(w.server, e)],
          states := c.states + [w.server.(buffer := e.data)])
    else
      c'
  }

  function TakenOne(c: Conn, b: Buffer): Conn {
    match Sort(b)
    case Reply(m) => c.(read := c.read + 1, results := c.results + [m], waiting := false)
    case Chat(m) => c.(read := c.read + 1, inbox := c.inbox + [m])
    case Malformed => c.(read := c.read + 1, waiting := false)
  }

  /** One step; an action that is not enabled changes nothing. */
  function Next(w: World, a: Action): World {
    if !Enabled(w, a) then w
    else
      match a
      case Connect(fd) =>
        World(Step(w.server, Accepted(fd, true)),
              w.conns[fd := Conn([], [], 0, [], [], [], 0, [], [], [], false)])
      case Ask(fd, request, scratch) =>
        var c := w.conns[fd];
        w.(conns := w.conns[fd := c.(asked := c.asked + [request], waiting := true,
                                     wire := c.wire + [Serialized(request, scratch).bytes])])
      case Serve(fd) =>
        var e := Delivery(w, fd);
        World(Step(w.server, e), map x | x in w.conns :: Served(w, e, x, w.conns[x]))
      case Take(fd) =>
        var c := w.conns[fd];
        w.(conns := w.conns[fd := TakenOne(c, w.server.book.Log(fd)[c.read])])
      case Unread(fd) =>
        var c := w.conns[fd];
        w.(conns := w.conns[fd := c.(taken := c.taken + c.inbox, inbox := [])])
      case Leave(fd) =>
        World(Step(w.server, HungUp(fd)), w.conns - {fd})
  }

  function Interleaved(w: World, actions: seq<Action>): World {
    if actions == [] then w
    else Next(Interleaved(w, actions[..|actions| - 1]), actions[|actions| - 1])
  }

  // ---------- The invariant ----------

  /** The server's response to one request, in terms of the request alone. */
  predicate Answers(s: State, fd: int, request: Message, response: Message) {
    && fd in s.book.sessions && IsRequestId(request.TypeId())
    && response == HandleRequest(s, fd, request, true).0
  }

  ghost predicate ClientSide(fd: int, c: Conn) {
    && |c.asked| == |c.wire| && c.handled == |c.answers| == |c.states| <= |c.wire|
    && (forall i :: 0 <= i < |c.wire| ==> Request(c.wire[i]) == Some(c.asked[i]))
    && (forall i :: 0 <= i < c.handled ==> Answers(c.states[i], fd, c.asked[i], c.answers[i]))
    && |c.asked| == |c.results| + if c.waiting then 1 else 0
  }

  ghost predicate ServerSide(c: Conn, log: seq<Buffer>) {
    && WellFormed(log) && c.read <= |log|
    && RepliesOn(log) == c.answers
    && RepliesOn(log[..c.read]) == c.results
    && ChatsOn(log[..c.read]) == c.taken + c.inbox
  }

  ghost predicate Consistent(w: World) {
    forall fd :: fd in w.conns ==>
      fd in w.server.book.sessions && ClientSide(fd, w.conns[fd]) && ServerSide(w.conns[fd], w.server.book.Log(fd))
  }

  /** A step of one client alone. */
  lemma OneChanged(w: World, fd: int, c: Conn)
    requires Consistent(w) && fd in w.conns
    requires ClientSide(fd, c) && ServerSide(c, w.server.book.Log(fd))
    ensures Consistent(w.(conns := w.conns[fd := c]))
  {
    hide ClientSide, ServerSide;
  }

  lemma AskKeeps(w: World, fd: int, request: Message, scratch: Buffer)
    requires Consistent(w) && Enabled(w, Ask(fd, request, scratch))
    ensures Consistent(Next(w, Ask(fd, request, scratch)))
  {
    var b := Serialized(request, scratch).bytes;
    SerializedMeaning(request, scratch);
    RequestMeaning(b, request);
    hide Serialized, Request, HandleRequest, RepliesOn, ChatsOn, Encode, WellFormed;
    OneChanged(w, fd, Next(w, Ask(fd, request, scratch)).conns[fd]);
  }

  lemma TakenOneClientSide(fd: int, c: Conn, b: Buffer)
    requires ClientSide(fd, c) && c.waiting && Sort(b) != Malformed
    ensures ClientSide(fd, TakenOne(c, b))
  {
    hide Request, Answers, Sort;
  }

  lemma ReadMore(log: seq<Buffer>, read: nat)
    requires read < |log|
    ensures RepliesOn(log[..read + 1])
         == RepliesOn(log[..read]) + if Sort(log[read]).Reply? then [Sort(log[read]).response] else []
    ensures ChatsOn(log[..read + 1])
         == ChatsOn(log[..read]) + if Sort(log[read]).Chat? then [Sort(log[read]).chat] else []
  {
    hide RepliesOn, ChatsOn, Sort;
    TakeMore(log, read);
    LogOne(log[read]);
    LogAppend(log[..read], [log[read]]);
  }

  lemma Regroup<T>(xs: seq<T>, ys: seq<T>, x: T)
    ensures xs + (ys + [x]) == xs + ys + [x]
  {
  }

  lemma TakenOneServerSide(c: Conn, log: seq<Buffer>)
    requires ServerSide(c, log) && c.read < |log|
    ensures ServerSide(TakenOne(c, log[c.read]), log)
  {
    var b := log[c.read];
    assert Sort(b) != Malformed;
    hide RepliesOn, ChatsOn, Sort, WellFormed;
    ReadMore(log, c.read);
    if Sort(b).Chat? {
      Regroup(c.taken, c.inbox, Sort(b).chat);
    }
  }

  lemma TakeKeeps(w: World, fd: int)
    requires Consistent(w) && Enabled(w, Take(fd))
    ensures Consistent(Next(w, Take(fd)))
  {
    var c, log := w.conns[fd], w.server.book.Log(fd);
    assert Sort(log[c.read]) != Malformed;
    hide ClientSide, ServerSide, TakenOne, Sort;
    TakenOneClientSide(fd, c, log[c.read]);
    TakenOneServerSide(c, log);
    OneChanged(w, fd, Next(w, Take(fd)).conns[fd]);
  }

  lemma UnreadKeeps(w: World, fd: int)
    requires Consistent(w) && Enabled(w, Unread(fd))
    ensures Consistent(Next(w, Unread(fd)))
  {
    hide Request, Answers, RepliesOn, ChatsOn, WellFormed;
    OneChanged(w, fd, Next(w, Unread(fd)).conns[fd]);
  }

  /** What serving `e.fd` puts on the connection `fd`. */
  lemma ServeGains(w: World, e: Event, fd: int)
    requires e.Received? && e.replySent && e.fd in w.server.book.sessions && fd in w.server.book.sessions
    ensures fd in Step(w.server, e).book.sessions
    ensures Gains(w.server.book.Log(fd), Step(w.server, e).book.Log(fd),
                  At(Relayed(w.server.book, e.fd, Request(e.data), e.chatSent), fd),
                  if fd == e.fd then [Answer(w.server, e)] else [])
  {
    StepTraffic(w.server, e);
    hide Gains, Step, Answer, Relayed, Request;
    assert At(Some((e.fd, Answer(w.server, e))), fd) == if fd == e.fd then [Answer(w.server, e)] else [];
  }

  lemma ServedKeepsClientSide(w: World, e: Event, fd: int, c: Conn)
    requires ClientSide(fd, c) && e.Received? && e.chatSent && e.fd in w.server.book.sessions
    requires fd == e.fd ==> c.handled < |c.wire| && e.data == c.wire[c.handled]
    ensures ClientSide(fd, Served(w, e, fd, c))
  {
    hide HandleRequest, Request, Owed;
    if fd == e.fd {
      assert Answers(w.server.(buffer := e.data), fd, c.asked[c.handled], Answer(w.server, e));
      hide Answers;
    }
  }

  lemma ServedKeepsServerSide(w: World, e: Event, fd: int, c: Conn,
      log: seq<Buffer>, log': seq<Buffer>, chats: seq<Message>)
    requires ServerSide(c, log) && e.Received? && e.fd in w.server.book.sessions
    requires Gains(log, log', chats, if fd == e.fd then [Answer(w.server, e)] else [])
    ensures ServerSide(Served(w, e, fd, c), log')
  {
    hide Answer, Owed, RepliesOn, ChatsOn, WellFormed;
    assert log'[..c.read] == log[..c.read];
  }

  lemma ServeKeeps(w: World, fd: int)
    requires Consistent(w) && Enabled(w, Serve(fd))
    ensures Consistent(Next(w, Serve(fd)))
  {
    var e := Delivery(w, fd);
    var w' := Next(w, Serve(fd));
    forall x | x in w'.conns
      ensures x in w'.server.book.sessions
      ensures ClientSide(x, w'.conns[x]) && ServerSide(w'.conns[x], w'.server.book.Log(x))
    {
      var c, log := w.conns[x], w.server.book.Log(x);
      assert w'.conns[x] == Served(w, e, x, c);
      ServeGains(w, e, x);
      hide Step, Served, Request, Relayed, ClientSide, ServerSide, Gains;
      ServedKeepsClientSide(w, e, x, c);
      ServedKeepsServerSide(w, e, x, c, log, w'.server.book.Log(x),
                            At(Relayed(w.server.book, fd, Request(e.data), true), x));
    }
  }

  lemma ConnectKeeps(w: World, fd: int)
    requires Consistent(w) && Enabled(w, Connect(fd))
    ensures Consistent(Next(w, Connect(fd)))
  {
    var c := Next(w, Connect(fd)).conns[fd];
    assert ClientSide(fd, c) && ServerSide(c, []) by {
      var none: seq<Buffer> := [];
      assert none[..0] == none;
    }
    hide ClientSide, ServerSide;
  }

  lemma LeaveKeeps(w: World, fd: int)
    requires Consistent(w) && Enabled(w, Leave(fd))
    ensures Consistent(Next(w, Leave(fd)))
  {
    hide ClientSide, ServerSide;
  }

  lemma NextKeeps(w: World, a: Action)
    requires Consistent(w)
    ensures Consistent(Next(w, a))
  {
    if Enabled(w, a) {
      hide Consistent, Enabled, Next;
      match a
      case Connect(fd) => ConnectKeeps(w, fd);
      case Ask(fd, request, scratch) => AskKeeps(w, fd, request, scratch);
      case Serve(fd) => ServeKeeps(w, fd);
      case Take(fd) => TakeKeeps(w, fd);
      case Unread(fd) => UnreadKeeps(w, fd);
      case Leave(fd) => LeaveKeeps(w, fd);
    }
  }

  lemma {:induction false} InterleavedKeeps(hash: Text -> Text, actions: seq<Action>)
    ensures Consistent(Interleaved(Start(hash), actions))
  {
    hide Next;
    if actions != [] {
      InterleavedKeeps(hash, actions[..|actions| - 1]);
      NextKeeps(Interleaved(Start(hash), actions[..|actions| - 1]), actions[|actions| - 1]);
    }
  }

  lemma ReadIsPrefix(log: seq<Buffer>, read: nat)
    requires read <= |log|
    ensures RepliesOn(log[..read]) <= RepliesOn(log)
    ensures ChatsOn(log[..read]) <= ChatsOn(log)
    ensures log[..|log|] == log
  {
    hide RepliesOn, ChatsOn;
    TakeAndDrop(log, read);
    LogAppend(log[..read], log[read..]);
  }

  // ---------- What the histories record ----------

  function RequestsAfter(w: World, a: Action, fd: int, requests: seq<Message>): seq<Message> {
    if a.fd != fd || !Enabled(w, a) then requests
    else
      match a
      case Connect(_) => []
      case Ask(_, request, _) => requests + [request]
      case _ => requests
  }

  /** The requests that the client `fd` has asked since it connected. */
  function RequestsOf(w: World, actions: seq<Action>, fd: int): seq<Message> {
    if actions == [] then []
    else
      var front, a := actions[..|actions| - 1], actions[|actions| - 1];
      RequestsAfter(Interleaved(w, front), a, fd, RequestsOf(w, front, fd))
  }

  function ServersAfter(w: World, a: Action, fd: int, servers: seq<State>): seq<State> {
    if a.fd != fd || !Enabled(w, a) then servers
    else
      match a
      case Connect(_) => []
      case Serve(_) => servers + [w.server]
      case _ => servers
  }

  /** The states in which the server began to serve `fd` since it connected. */
  function ServersOf(w: World, actions: seq<Action>, fd: int): seq<State> {
    if actions == [] then []
    else
      var front, a := actions[..|actions| - 1], actions[|actions| - 1];
      ServersAfter(Interleaved(w, front), a, fd, ServersOf(w, front, fd))
  }

  ghost predicate Recorded(c: Conn, requests: seq<Message>, servers: seq<State>) {
    && c.asked == requests && |c.states| == |servers| <= |c.wire|
    && forall k :: 0 <= k < |servers| ==> c.states[k] == servers[k].(buffer := c.wire[k])
  }

  lemma TakenOneRecords(c: Conn, b: Buffer)
    ensures TakenOne(c, b).asked == c.asked && TakenOne(c, b).states == c.states && TakenOne(c, b).wire == c.wire
  {
    hide Sort;
  }

  lemma ServedRecorded(w: World, e: Event, fd: int, c: Conn, requests: seq<Message>, servers: seq<State>)
    requires e.Received? && e.fd in w.server.book.sessions && Recorded(c, requests, servers)
    requires fd == e.fd ==> c.handled == |c.states| < |c.wire| && e.data == c.wire[c.handled]
    ensures Recorded(Served(w, e, fd, c), requests, if fd == e.fd then servers + [w.server] else servers)
  {
    hide Owed, Answer;
  }

  lemma NextRecorded(w: World, a: Action, fd: int, requests: seq<Message>, servers: seq<State>)
    requires Consistent(w) && fd in Next(w, a).conns
    requires fd in w.conns ==> Recorded(w.conns[fd], requests, servers)
    ensures Recorded(Next(w, a).conns[fd], RequestsAfter(w, a, fd, requests), ServersAfter(w, a, fd, servers))
  {
    hide ServerSide, Step, Serialized, Served, TakenOne, Request, Answers;
    if a.Take? && Enabled(w, a) {
      hide Consistent;
      TakenOneRecords(w.conns[a.fd], w.server.book.Log(a.fd)[w.conns[a.fd].read]);
    } else if a.Serve? && Enabled(w, a) {
      assert ClientSide(fd, w.conns[fd]) && w.conns[fd].handled == |w.conns[fd].states|;
      hide Recorded, Consistent;
      ServedRecorded(w, Delivery(w, a.fd), fd, w.conns[fd], requests, servers);
    }
  }

  lemma {:induction false} InterleavedRecorded(hash: Text -> Text, actions: seq<Action>, fd: int)
    requires fd in Interleaved(Start(hash), actions).conns
    ensures Recorded(Interleaved(Start(hash), actions).conns[fd],
                     RequestsOf(Start(hash), actions, fd), ServersOf(Start(hash), actions, fd))
  {
    hide Next, Recorded, RequestsAfter, ServersAfter, Consistent;
    if actions != [] {
      var front, a := actions[..|actions| - 1], actions[|actions| - 1];
      var w := Interleaved(Start(hash), front);
      InterleavedKeeps(hash, front);
      if fd in w.conns {
        InterleavedRecorded(hash, front, fd);
      }
      NextRecorded(w, a, fd, RequestsOf(Start(hash), front, fd), ServersOf(Start(hash), front, fd));
    }
  }

  // ---------- Replies ----------

  /**
   In every interleaving, the replies put on a connection are the server's responses to the requests
   handled, one each and in order, and the k-th completed `SendRequest` of a client returned the
   response to its own k-th request; between calls every request made has been answered. The requests
   are those of the client's calls, and each response was computed in the state in which the server
   began to serve that request.
   */
  lemma EveryReplyIsOwn(hash: Text -> Text, actions: seq<Action>, fd: int)
    requires fd in Interleaved(Start(hash), actions).conns
    ensures var w := Interleaved(Start(hash), actions);
            var c := w.conns[fd];
            && RepliesOn(w.server.book.Log(fd)) == c.answers && |c.answers| == c.handled
            && |c.states| == |c.answers| <= |c.asked|
            && c.asked == RequestsOf(Start(hash), actions, fd)
            && |ServersOf(Start(hash), actions, fd)| == |c.answers| <= |c.wire|
            && (forall k :: 0 <= k < |c.answers| ==>
                  && c.states[k] == ServersOf(Start(hash), actions, fd)[k].(buffer := c.wire[k])
                  && Answers(c.states[k], fd, c.asked[k], c.answers[k]))
            && c.results <= c.answers
            && |c.asked| == |c.results| + if c.waiting then 1 else 0
  {
    InterleavedKeeps(hash, actions);
    InterleavedRecorded(hash, actions, fd);
    var w := Interleaved(Start(hash), actions);
    hide Interleaved, RepliesOn, ChatsOn, Answers, Request, WellFormed, RequestsOf, ServersOf;
    var c, log := w.conns[fd], w.server.book.Log(fd);
    assert ClientSide(fd, c) && ServerSide(c, log);
    hide Consistent;
    ReadIsPrefix(log, c.read);
  }

  lemma OneReplyLeft(c: Conn, log: seq<Buffer>)
    requires ServerSide(c, log) && |c.answers| == |c.results| + 1
    ensures Demux(log[c.read..]).outcome == Response(c.answers[|c.results|])
  {
    hide RepliesOn, ChatsOn, Demux, Sort;
    var rest := log[c.read..];
    TakeAndDrop(log, c.read);
    LogAppend(log[..c.read], rest);
    assert RepliesOn(rest) == c.answers[|c.results|..];
    DemuxFindsFirstReply(rest);
  }

  /**
   Once the server has handled a pending request, waiting for the reply on what is on the way returns
   the response to that very request, however many chats arrive before it.
   */
  lemma PendingReplyIsFound(hash: Text -> Text, actions: seq<Action>, fd: int)
    requires fd in Interleaved(Start(hash), actions).conns
    requires var c := Interleaved(Start(hash), actions).conns[fd];
             c.waiting && c.handled == |c.wire|
    ensures var w := Interleaved(Start(hash), actions);
            var c := w.conns[fd];
            var k := |c.results|;
            && |c.answers| == |c.asked| == |c.states| == k + 1
            && Answers(c.states[k], fd, c.asked[k], c.answers[k])
            && c.read <= |w.server.book.Log(fd)|
            && Demux(w.server.book.Log(fd)[c.read..]).outcome == Response(c.answers[k])
  {
    InterleavedKeeps(hash, actions);
    var w := Interleaved(Start(hash), actions);
    hide Interleaved, Answers, Request, Demux, WellFormed, RepliesOn, ChatsOn;
    var c, log := w.conns[fd], w.server.book.Log(fd);
    assert ClientSide(fd, c) && ServerSide(c, log);
    hide Consistent;
    OneReplyLeft(c, log);
  }

  // ---------- One call ----------

  /** What the client object holds, if what will arrive on its connection from the start is `log`. */
  function Held(c: Conn, log: seq<Buffer>, buffer: Buffer): Contents
    requires c.read <= |log|
  {
    Contents(c.inbox, log[c.read..], c.wire, buffer)
  }

  /** Taking a buffer is one turn of waiting for the reply: the same inbox, and in the end the same outcome. */
  lemma TakenOneIsAwaited(c: Conn, log: seq<Buffer>, buffer: Buffer)
    requires c.waiting && c.read < |log|
    ensures var c' := TakenOne(c, log[c.read]);
            var held' := Held(c', log, log[c.read]);
            (Awaited(Held(c, log, buffer))
             == if c'.waiting then Awaited(held')
                else if |c'.results| > |c.results| then (Response(c'.results[|c.results|]), held')
                else (Error(DeserializationFailed), held'))
  {
    AwaitedOne(Held(c, log, buffer));
    hide Awaited, Sort;
    assert log[c.read..][1..] == log[c.read + 1..];
  }

  /** The client `fd` begins no call, reads no inbox and does not leave. */
  predicate OnlyWaits(fd: int, actions: seq<Action>) {
    forall i :: 0 <= i < |actions| && actions[i].fd == fd ==>
      !actions[i].Ask? && !actions[i].Unread? && !actions[i].Leave?
  }

  /** How far a call that began as `c` has got as `c'`: what is left is what waiting on the rest will do. */
  ghost predicate Underway(c: Conn, c': Conn, log: seq<Buffer>, buffer: Buffer) {
    && c.read <= c'.read <= |log| && c'.wire == c.wire
    && var held' := Held(c', log, if c.read < c'.read then log[c'.read - 1] else buffer);
       if c'.waiting then
         c'.results == c.results && Awaited(Held(c, log, buffer)) == Awaited(held')
       else
         c.read < c'.read && |c'.results| == |c.results| + 1
         && Awaited(Held(c, log, buffer)) == (Response(c'.results[|c.results|]), held')
  }

  lemma TakenOneUnderway(c: Conn, c': Conn, log: seq<Buffer>, buffer: Buffer)
    requires Underway(c, c', log, buffer) && c'.waiting && c'.read < |log| && Sort(log[c'.read]) != Malformed
    ensures Underway(c, TakenOne(c', log[c'.read]), log, buffer)
  {
    TakenOneIsAwaited(c', log, if c.read < c'.read then log[c'.read - 1] else buffer);
    hide Awaited, Sort;
  }

  /** What a client that only waits sees of a step. */
  lemma SeenByWaiter(w: World, a: Action, fd: int)
    requires Consistent(w) && fd in w.conns && OnlyWaits(fd, [a])
    ensures fd in Next(w, a).conns && w.server.book.Log(fd) <= Next(w, a).server.book.Log(fd)
    ensures var c, c' := w.conns[fd], Next(w, a).conns[fd];
            if a == Take(fd) && Enabled(w, a) then c' == TakenOne(c, w.server.book.Log(fd)[c.read])
            else c' == c.(handled := c'.handled, answers := c'.answers, states := c'.states, owed := c'.owed)
  {
    assert [a][0] == a;
    hide ClientSide, ServerSide, Serialized, TakenOne;
    if a.Serve? && Enabled(w, a) {
      ServeGains(w, Delivery(w, a.fd), fd);
      hide Step, Request, Relayed, Answer, Owed, WellFormed, RepliesOn, ChatsOn;
    }
  }

  lemma StepUnderway(w: World, a: Action, fd: int, c: Conn, log: seq<Buffer>, buffer: Buffer)
    requires Consistent(w) && fd in w.conns && OnlyWaits(fd, [a])
    requires Underway(c, w.conns[fd], log, buffer) && Next(w, a).server.book.Log(fd) <= log
    ensures fd in Next(w, a).conns && Underway(c, Next(w, a).conns[fd], log, buffer)
  {
    hide Next, TakenOne, Sort, RepliesOn, ChatsOn, ClientSide, Awaited;
    SeenByWaiter(w, a, fd);
    var c1, log1 := w.conns[fd], w.server.book.Log(fd);
    if a == Take(fd) && Enabled(w, a) {
      assert ServerSide(c1, log1);
      assert Sort(log1[c1.read]) != Malformed && log1[c1.read] == log[c1.read];
      hide Underway, Consistent, ServerSide;
      TakenOneUnderway(c, c1, log, buffer);
    } else {
      hide Enabled, Consistent, ServerSide;
    }
  }

  lemma {:induction false} WaiterUnderway(w: World, actions: seq<Action>, fd: int, log: seq<Buffer>, buffer: Buffer)
    requires Consistent(w) && fd in w.conns && w.conns[fd].waiting && OnlyWaits(fd, actions)
    ensures Consistent(Interleaved(w, actions)) && fd in Interleaved(w, actions).conns
    ensures Interleaved(w, actions).server.book.Log(fd) <= log
        ==> Underway(w.conns[fd], Interleaved(w, actions).conns[fd], log, buffer)
  {
    if actions == [] {
      assert ServerSide(w.conns[fd], w.server.book.Log(fd));
      hide Awaited, ClientSide, Consistent, Next, RepliesOn, ChatsOn, WellFormed;
    } else {
      var front, a := actions[..|actions| - 1], actions[|actions| - 1];
      var w1 := Interleaved(w, front);
      assert Interleaved(w, actions) == Next(w1, a) && OnlyWaits(fd, front) && OnlyWaits(fd, [a]);
      WaiterUnderway(w, front, fd, log, buffer);
      hide Underway, Consistent, Next, Interleaved, TakenOne, Enabled, OnlyWaits;
      NextKeeps(w1, a);
      SeenByWaiter(w1, a, fd);
      if Next(w1, a).server.book.Log(fd) <= log {
        StepUnderway(w1, a, fd, w.conns[fd], log, buffer);
      }
    }
  }

  /**
   In every interleaving, a call that has returned did what the client's code does when it alone waits on
   the buffers of its connection: the same outcome, inbox, rest of the stream and last buffer, whatever
   the server and the other clients did meanwhile and whatever `log` has arrived in the end.
   */
  lemma CallIsAwaited(hash: Text -> Text, before: seq<Action>, fd: int, request: Message, scratch: Buffer,
      during: seq<Action>, log: seq<Buffer>)
    requires Enabled(Interleaved(Start(hash), before), Ask(fd, request, scratch)) && OnlyWaits(fd, during)
    requires var w := Interleaved(Next(Interleaved(Start(hash), before), Ask(fd, request, scratch)), during);
             w.server.book.Log(fd) <= log && fd in w.conns && !w.conns[fd].waiting
    ensures var c := Interleaved(Start(hash), before).conns[fd];
            var w := Interleaved(Next(Interleaved(Start(hash), before), Ask(fd, request, scratch)), during);
            var c' := w.conns[fd];
            && c.read < c'.read <= |log| && |c'.results| == |c.results| + 1
            && Requested(Held(c, log, scratch), request, 1)
            == (Response(c'.results[|c.results|]), Held(c', log, log[c'.read - 1]))
  {
    var w := Interleaved(Start(hash), before);
    var w1 := Next(w, Ask(fd, request, scratch));
    InterleavedKeeps(hash, before);
    NextKeeps(w, Ask(fd, request, scratch));
    hide Interleaved, Awaited, Serialized, Consistent;
    WaiterUnderway(w1, during, fd, log, Serialized(request, scratch).bytes);
  }

  /** Getting the unread chats is what the client's own call does with the inbox it then holds. */
  lemma UnreadIsGetUnread(w: World, fd: int, log: seq<Buffer>, buffer: Buffer)
    requires Enabled(w, Unread(fd)) && w.conns[fd].read <= |log|
    ensures var c, c' := w.conns[fd], Next(w, Unread(fd)).conns[fd];
            var (unread, held) := Called(Held(c, log, buffer), [GetUnread]);
            c'.read == c.read && held == Held(c', log, buffer) && c'.taken == c.taken + unread
  {
    assert [GetUnread][..0] == [] && Called(Held(w.conns[fd], log, buffer), []) == ([], Held(w.conns[fd], log, buffer));
    assert [] + w.conns[fd].inbox == w.conns[fd].inbox;
  }

  // ---------- Chats ----------

  ghost predicate NoSecondLogins(w: World, actions: seq<Action>) {
    forall i :: 0 <= i < |actions| ==> LogsInOnce(Interleaved(w, actions[..i]), actions[i])
  }

  predicate LogsInOnce(w: World, a: Action) {
    a.Serve? && Enabled(w, a) ==> !SecondLogin(w.server, Delivery(w, a.fd))
  }

  ghost predicate Routed(w: World) {
    && Inverse(w.server.book)
    && forall fd :: fd in w.conns ==> ChatsOn(w.server.book.Log(fd)) == w.conns[fd].owed
  }

  /** Where the maps agree, the chat put on a connection is the chat it is owed. */
  lemma RelayedIsOwed(w: World, e: Event, fd: int)
    requires Inverse(w.server.book) && e.Received? && e.chatSent && e.fd in w.server.book.sessions
    ensures At(Relayed(w.server.book, e.fd, Request(e.data), true), fd) == Owed(w, e, fd)
  {
    hide Request, Inverse, Handled, Traffic;
    HandledTraffic(w.server, e.fd, e.data, true);
    match Request(e.data)
    case Some(SendChat(to, content)) =>
      EstablishedMeansOwned(w.server.book, to);
    case _ =>
  }

  lemma NextKeepsRouted(w: World, a: Action)
    requires Consistent(w) && Routed(w) && LogsInOnce(w, a)
    ensures Routed(Next(w, a))
  {
    var w' := Next(w, a);
    if Enabled(w, a) {
      match a
      case Connect(fd) =>
        StepKeepsInverseIff(w.server, Accepted(fd, true));
        assert ChatsOn([]) == [];
        hide Inverse, ClientSide, ServerSide;
      case Leave(fd) =>
        StepKeepsInverseIff(w.server, HungUp(fd));
        hide Inverse, ClientSide, ServerSide;
      case Serve(fd) =>
        var e := Delivery(w, fd);
        StepKeepsInverseIff(w.server, e);
        forall x | x in w'.conns
          ensures ChatsOn(w'.server.book.Log(x)) == w'.conns[x].owed
        {
          assert w'.conns[x] == Served(w, e, x, w.conns[x]);
          ServeGains(w, e, x);
          RelayedIsOwed(w, e, x);
          hide Step, Request, Relayed, Owed, ChatsOn, RepliesOn, Inverse, Answer;
        }
      case _ =>
        hide ChatsOn, Inverse, Serialized, ClientSide, ServerSide;
    }
  }

  lemma {:induction false} InterleavedKeepsRouted(hash: Text -> Text, actions: seq<Action>)
    requires NoSecondLogins(Start(hash), actions)
    ensures Routed(Interleaved(Start(hash), actions))
  {
    hide Next, LogsInOnce, Consistent;
    if actions != [] {
      var front := actions[..|actions| - 1];
      assert forall i :: 0 <= i < |front| ==> front[..i] == actions[..i];
      InterleavedKeepsRouted(hash, front);
      InterleavedKeeps(hash, front);
      assert LogsInOnce(Interleaved(Start(hash), actions[..|front|]), actions[|front|]);
      NextKeepsRouted(Interleaved(Start(hash), front), actions[|front|]);
    }
  }

  /**
   In every interleaving without second logins, the chats a client has found in its inbox are a prefix
   of the chats owed to it, those sent successfully to the name it was logged in under, from the
   sender's own name, in the order of sending; once its channel is drained, they are all of them.
   */
  lemma ChatsArriveInOrder(hash: Text -> Text, actions: seq<Action>, fd: int)
    requires NoSecondLogins(Start(hash), actions)
    requires fd in Interleaved(Start(hash), actions).conns
    ensures var w := Interleaved(Start(hash), actions);
            var c := w.conns[fd];
            && c.taken + c.inbox <= c.owed
            && (c.read == |w.server.book.Log(fd)| ==> c.taken + c.inbox == c.owed)
  {
    InterleavedKeepsRouted(hash, actions);
    InterleavedKeeps(hash, actions);
    var w := Interleaved(Start(hash), actions);
    hide Interleaved, RepliesOn, ChatsOn, Inverse, ClientSide, WellFormed, NoSecondLogins;
    var c, log := w.conns[fd], w.server.book.Log(fd);
    assert ServerSide(c, log) && ChatsOn(log) == c.owed;
    hide Consistent, Routed;
    ReadIsPrefix(log, c.read);
  }
}
