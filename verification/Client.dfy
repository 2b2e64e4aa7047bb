/** The client: sending a request, waiting for its reply, and putting the chats met on the way into the inbox. */
module Client {
  import opened Basics
  import opened Messages
  import opened Serialization
  import opened MessageObjects
  import opened Reception

  datatype RequestError = SendFailed | Disconnected | SerializationFailed | DeserializationFailed

  datatype Outcome = Response(response: Message) | Error(error: RequestError)

  // ---------- Waiting for the reply ----------

  datatype Demuxed = Demuxed(outcome: Outcome, chats: seq<Message>, rest: seq<Buffer>)

  /** Takes buffers off a stream that ends in a disconnect, up to the first that is not a chat. */
  function Demux(stream: seq<Buffer>): Demuxed {
    if stream == [] then
      Demuxed(Error(Disconnected), [], [])
    else
      match Sort(stream[0])
      case Reply(m) => Demuxed(Response(m), [], stream[1..])
      case Malformed => Demuxed(Error(DeserializationFailed), [], stream[1..])
      case Chat(m) => var d := Demux(stream[1..]); Demuxed(d.outcome, [m] + d.chats, d.rest)
  }

  /** Nothing is lost: the stream is what was taken and the rest, and the chats are those among what was taken. */
  lemma {:induction false} DemuxConserves(stream: seq<Buffer>)
    ensures var d := Demux(stream);
            && |d.rest| <= |stream| && stream[|stream| - |d.rest|..] == d.rest
            && d.chats == ChatsOn(stream[..|stream| - |d.rest|])
  {
    hide Sort;
    if stream != [] {
      var tail := stream[1..];
      var d := Demux(stream);
      LogOne(stream[0]);
      if Sort(stream[0]).Chat? {
        DemuxConserves(tail);
        var n := |tail| - |d.rest|;
        LogAppend([stream[0]], tail[..n]);
        assert stream[..n + 1] == [stream[0]] + tail[..n];
      } else {
        assert stream[..1] == [stream[0]];
      }
    }
  }

  /** However many chats come first, the outcome is the first reply; without one it is the disconnect. */
  lemma {:induction false} DemuxFindsFirstReply(stream: seq<Buffer>)
    requires WellFormed(stream)
    ensures Demux(stream).outcome
         == if RepliesOn(stream) == [] then Error(Disconnected) else Response(RepliesOn(stream)[0])
  {
    hide Sort;
    if stream != [] {
      LogOne(stream[0]);
      LogAppend([stream[0]], stream[1..]);
      assert stream == [stream[0]] + stream[1..];
      DemuxFindsFirstReply(stream[1..]);
    }
  }

  /**
   On any stream, malformed buffers included: the chats before the first buffer that is none are
   collected, that buffer decides the outcome, and nothing behind it is touched.
   */
  lemma {:induction false} DemuxStopsAt(stream: seq<Buffer>, k: nat)
    requires k <= |stream| && forall i :: 0 <= i < k ==> Sort(stream[i]).Chat?
    requires k < |stream| ==> !Sort(stream[k]).Chat?
    ensures |Demux(stream).chats| == k && forall i :: 0 <= i < k ==> Demux(stream).chats[i] == Sort(stream[i]).chat
    ensures Demux(stream).rest == if k < |stream| then stream[k + 1..] else []
    ensures Demux(stream).outcome
         == if k == |stream| then Error(Disconnected)
            else if Sort(stream[k]).Reply? then Response(Sort(stream[k]).response)
            else Error(DeserializationFailed)
  {
    hide Sort;
    if k > 0 {
      var tail := stream[1..];
      assert forall i :: 0 <= i < k - 1 ==> tail[i] == stream[i + 1];
      DemuxStopsAt(tail, k - 1);
      assert Demux(stream).chats == [Sort(stream[0]).chat] + Demux(tail).chats;
    }
  }

  // ---------- A sequence of calls ----------

  /** `incoming` is all that will still arrive; `outgoing` all that was sent. */
  datatype Contents = Contents(inbox: seq<Message>, incoming: seq<Buffer>, outgoing: seq<Buffer>, buffer: Buffer)

  function Awaited(c: Contents): (Outcome, Contents) {
    var d := Demux(c.incoming);
    var n := |c.incoming| - |d.rest|;
    (d.outcome,
     c.(inbox := c.inbox + d.chats, incoming := d.rest,
        buffer := if 0 < n <= |c.incoming| then c.incoming[n - 1] else c.buffer))
  }

  /** Waiting, one buffer at a time. */
  lemma AwaitedOne(c: Contents)
    requires c.incoming != []
    ensures var c' := c.(incoming := c.incoming[1..], buffer := c.incoming[0]);
            Awaited(c) == match Sort(c.incoming[0])
              case Reply(m) => (Response(m), c')
              case Malformed => (Error(DeserializationFailed), c')
              case Chat(m) => Awaited(c'.(inbox := c.inbox + [m]))
  {
    hide Sort;
    var tail := c.incoming[1..];
    DemuxConserves(tail);
    var d := Demux(tail);
    match Sort(c.incoming[0]) {
      case Chat(m) => assert c.inbox + ([m] + d.chats) == (c.inbox + [m]) + d.chats;
      case _ =>
    }
    assert c.inbox + [] == c.inbox;
  }

  lemma AwaitedNone(c: Contents)
    requires c.incoming == []
    ensures Awaited(c) == (Error(Disconnected), c)
  {
    assert c.inbox + [] == c.inbox;
  }

  /** The client takes every result of sending but zero for success, so also the -1 of a failed send. */
  function Requested(c: Contents, request: Message, sendResult: int): (Outcome, Contents) {
    var w := Serialized(request, c.buffer);
    var c' := c.(buffer := w.bytes);
    if !w.ok then (Error(SerializationFailed), c')
    else if sendResult == 0 then (Error(SendFailed), c')
    else Awaited(if sendResult > 0 then c'.(outgoing := c.outgoing + [c'.buffer]) else c')
  }

  /** A request is sent exactly if it fits and sending does not fail, as one buffer that starts with its encoding. */
  lemma RequestIsSent(c: Contents, request: Message, sendResult: int)
    ensures var (outcome, c') := Requested(c, request, sendResult);
            var fits := |Encode(request)| <= MESSAGE_BUFFER_SIZE;
            && (if fits && sendResult > 0
                then |c'.outgoing| == |c.outgoing| + 1 && c.outgoing <= c'.outgoing
                     && Encode(request) <= c'.outgoing[|c.outgoing|]
                else c'.outgoing == c.outgoing)
            && (!fits ==> outcome == Error(SerializationFailed))
            && (fits && sendResult == 0 ==> outcome == Error(SendFailed))
            && (!fits || sendResult == 0 ==> c'.incoming == c.incoming && c'.inbox == c.inbox)
            && (fits && sendResult != 0
                ==> && outcome == Demux(c.incoming).outcome && c'.incoming == Demux(c.incoming).rest
                    && c'.inbox == c.inbox + Demux(c.incoming).chats)
  {
    SerializedMeaning(request, c.buffer);
    hide Serialized, Encode, Demux;
  }

  datatype Call = SendRequest(request: Message, sendResult: int) | GetUnread

  /** All that `GetUnread` returned in a sequence of calls, and what the client holds at the end. */
  function Called(c: Contents, calls: seq<Call>): (seq<Message>, Contents) {
    if calls == [] then
      ([], c)
    else
      var (unread, c') := Called(c, calls[..|calls| - 1]);
      match calls[|calls| - 1]
      case SendRequest(request, sendResult) => (unread, Requested(c', request, sendResult).1)
      case GetUnread => (unread + c'.inbox, c'.(inbox := []))
  }

  /** What was unread, with what is now in the inbox, is the chats of the buffers that were received, in order. */
  ghost predicate Conserved(c: Contents, unread: seq<Message>, c': Contents) {
    && |c'.incoming| <= |c.incoming|
    && var n := |c.incoming| - |c'.incoming|;
       c'.incoming == c.incoming[n..] && unread + c'.inbox == c.inbox + ChatsOn(c.incoming[..n])
  }

  lemma RequestedConserves(c: Contents, request: Message, sendResult: int)
    ensures Conserved(c, [], Requested(c, request, sendResult).1)
  {
    hide Serialized, Demux;
    DemuxConserves(c.incoming);
    assert ChatsOn(c.incoming[..0]) == [];
    var c' := Requested(c, request, sendResult).1;
    assert [] + c'.inbox == c'.inbox;
  }

  /** Over any sequence of calls no chat is lost, duplicated or reordered. */
  lemma {:induction false} InboxConserved(c: Contents, calls: seq<Call>)
    ensures var (unread, c') := Called(c, calls);
            Conserved(c, unread, c')
  {
    if calls == [] {
      assert ChatsOn(c.incoming[..0]) == [];
    } else {
      var front := calls[..|calls| - 1];
      var (unread, c') := Called(c, front);
      InboxConserved(c, front);
      match calls[|calls| - 1]
      case SendRequest(request, sendResult) =>
        var c'' := Requested(c', request, sendResult).1;
        RequestedConserves(c', request, sendResult);
        ConservedTransitive(c, unread, c', c'');
      case GetUnread =>
    }
  }

  lemma ConservedTransitive(c: Contents, unread: seq<Message>, c': Contents, c'': Contents)
    requires Conserved(c, unread, c') && Conserved(c', [], c'')
    ensures Conserved(c, unread, c'')
  {
    hide ChatsOn, RepliesOn;
    var n, n' := |c.incoming| - |c'.incoming|, |c'.incoming| - |c''.incoming|;
    var first, more := c.incoming[..n], c'.incoming[..n'];
    assert c.incoming[..n + n'] == first + more;
    assert c''.incoming == c.incoming[n + n'..];
    LogAppend(first, more);
    calc {
      unread + c''.inbox;
      { assert [] + c''.inbox == c''.inbox; }
      unread + (c'.inbox + ChatsOn(more));
      (unread + c'.inbox) + ChatsOn(more);
      c.inbox + ChatsOn(first) + ChatsOn(more);
      c.inbox + (ChatsOn(first) + ChatsOn(more));
    }
  }

  // ---------- The client ----------

  class Client {
    const messageBuffer: array<byte>
    var inbox: seq<Message>
    var incoming: seq<Buffer>
    var outgoing: seq<Buffer>

    ghost predicate Valid() {
      messageBuffer.Length == MESSAGE_BUFFER_SIZE
    }

    ghost function State(): Contents
      requires Valid()
      reads this, messageBuffer
    {
      Contents(inbox, incoming, outgoing, messageBuffer[..])
    }

    /** A client whose channel will deliver `incoming` before it is disconnected. */
    constructor (incoming: seq<Buffer>)
      ensures Valid() && inbox == [] && outgoing == [] && this.incoming == incoming && fresh(messageBuffer)
    {
      messageBuffer := new byte[MESSAGE_BUFFER_SIZE](_ => 0);
      inbox, outgoing := [], [];
      this.incoming := incoming;
    }

    method GetUnread() returns (output: seq<Message>)
      requires Valid()
      modifies this`inbox
      ensures output == old(inbox) && State() == old(State()).(inbox := [])
    {
      output := inbox;
      inbox := [];
    }

    method SendRequest(request: Message, sendResult: int) returns (r: Outcome)
      requires Valid() && (request.Ping? || request.Login? || request.Register? || request.SendChat?)
      modifies this, messageBuffer
      ensures (r, State()) == Requested(old(State()), request, sendResult)
    {
      hide Serialized, Demux;
      var ok;
      if request.Ping? {
        var message := new BareMessage(PING);
        ok := message.Serialize(messageBuffer);
      } else {
        var message := new PairMessage(request.TypeId(), request.Texts()[0], request.Texts()[1]);
        ok := message.Serialize(messageBuffer);
      }
      if ok {
        if sendResult > 0 {
          outgoing := outgoing + [messageBuffer[..]];
        }
        if sendResult != 0 {
          r := GetResponse();
        } else {
          r := Error(SendFailed);
        }
      } else {
        r := Error(SerializationFailed);
      }
    }

    /** `SecureChannel::Receive`; false stands for a result that is not positive. */
    method Receive() returns (received: bool)
      requires Valid()
      modifies this`incoming, messageBuffer
      ensures received <==> old(incoming) != []
      ensures incoming == if received then old(incoming)[1..] else []
      ensures messageBuffer[..] == if received then old(incoming)[0] else old(messageBuffer[..])
    {
      received := incoming != [];
      if received {
        forall i | 0 <= i < messageBuffer.Length {
          messageBuffer[i] := incoming[0][i];
        }
        assert messageBuffer[..] == incoming[0];
        incoming := incoming[1..];
      }
    }

    method GetResponse() returns (r: Outcome)
      requires Valid()
      modifies this`inbox, this`incoming, messageBuffer
      ensures (r, State()) == Awaited(old(State()))
      decreases |incoming|
    {
      hide Awaited, Demux, DecodeAs;
      if incoming == [] {
        AwaitedNone(State());
      } else {
        AwaitedOne(State());
      }
      var received := Receive();
      if received {
        ghost var b := messageBuffer[..];
        var reader := new ByteReader(messageBuffer);
        var ok, id := reader.Peek(1);
        assert id[0] == b[0];
        if id[0] == SUCCESS || id[0] == FAILURE {
          var response := DeserializeAs(id[0]);
          r := if response.Some? then Response(response.value) else Error(DeserializationFailed);
        } else if id[0] == RECEIVE_CHAT {
          // A chat interrupted the exchange: it goes to the inbox, and the real response is awaited.
          var chat := DeserializeAs(id[0]);
          if chat.Some? {
            inbox := inbox + [chat.value];
            r := GetResponse();
          } else {
            r := Error(DeserializationFailed);
          }
        } else {
          r := Error(DeserializationFailed);
        }
      } else {
        r := Error(Disconnected);
      }
    }

    method DeserializeAs(id: byte) returns (r: Option<Message>)
      requires Valid() && (id == SUCCESS || id == FAILURE || id == RECEIVE_CHAT)
      ensures r == match DecodeAs(id, messageBuffer[..]) case None => None case Some((m, _)) => Some(m)
    {
      var ok, response;
      if id == SUCCESS {
        var message := new BareMessage(SUCCESS);
        DeserializedMeaning(message.Value(), messageBuffer[..]);
        ok := message.Deserialize(messageBuffer);
        response := message.Value();
      } else if id == FAILURE {
        var message := new TextMessage(FAILURE, []);
        DeserializedMeaning(message.Value(), messageBuffer[..]);
        ok := message.Deserialize(messageBuffer);
        response := message.Value();
      } else {
        var message := new PairMessage(RECEIVE_CHAT, [], []);
        DeserializedMeaning(message.Value(), messageBuffer[..]);
        ok := message.Deserialize(messageBuffer);
        response := message.Value();
      }
      r := if ok then Some(response) else None;
    }
  }
}
