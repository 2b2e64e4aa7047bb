/** How a client sorts the buffers it receives into replies and chats. */
module Reception {
  import opened Basics
  import opened Messages

  datatype Incoming = Reply(response: Message) | Chat(chat: Message) | Malformed

  /** The dispatch on the type id, and the one deserializer it then tries. */
  function Sort(b: Buffer): Incoming {
    var id := b[0];
    if id != SUCCESS && id != FAILURE && id != RECEIVE_CHAT then
      Malformed
    else
      match DecodeAs(id, b)
      case None => Malformed
      case Some((m, _)) => if id == RECEIVE_CHAT then Chat(m) else Reply(m)
  }

  predicate IsResponse(m: Message) {
    m.Success? || m.Failure?
  }

  /** A buffer is sorted as a reply or a chat exactly when it starts with the encoding of one. */
  lemma SortMeaning(b: Buffer, m: Message)
    ensures Sort(b) == Reply(m) <==> IsResponse(m) && Encode(m) <= b
    ensures Sort(b) == Chat(m) <==> m.ReceiveChat? && Encode(m) <= b
  {
    EncodedSize(m);
    EncodeHead(m);
    hide Encode, DecodeAs, Sized;
    var id := b[0];
    if IsTypeId(id) {
      DecodeIffEncoded(id, b, m, |Encode(m)|);
      if DecodeAs(id, b).Some? {
        var (m', k) := DecodeAs(id, b).value;
        DecodeIffEncoded(id, b, m', k);
      }
    }
  }

  /** The replies among some buffers, in order. */
  function RepliesOn(log: seq<Buffer>): seq<Message> {
    if log == [] then []
    else
      var front := RepliesOn(log[..|log| - 1]);
      match Sort(log[|log| - 1])
      case Reply(m) => front + [m]
      case _ => front
  }

  /** The chats among some buffers, in order. */
  function ChatsOn(log: seq<Buffer>): seq<Message> {
    if log == [] then []
    else
      var front := ChatsOn(log[..|log| - 1]);
      match Sort(log[|log| - 1])
      case Chat(m) => front + [m]
      case _ => front
  }

  ghost predicate WellFormed(log: seq<Buffer>) {
    forall i :: 0 <= i < |log| ==> Sort(log[i]) != Malformed
  }

  lemma {:induction false} LogAppend(log: seq<Buffer>, more: seq<Buffer>)
    ensures RepliesOn(log + more) == RepliesOn(log) + RepliesOn(more)
    ensures ChatsOn(log + more) == ChatsOn(log) + ChatsOn(more)
    decreases |more|
  {
    hide Sort;
    if more == [] {
      assert log + more == log;
    } else {
      var front := more[..|more| - 1];
      LogAppend(log, front);
      assert (log + more)[..|log + more| - 1] == log + front;
    }
  }

  lemma LogOne(b: Buffer)
    ensures RepliesOn([b]) == if Sort(b).Reply? then [Sort(b).response] else []
    ensures ChatsOn([b]) == if Sort(b).Chat? then [Sort(b).chat] else []
  {
    assert RepliesOn([b][..0]) == [] && ChatsOn([b][..0]) == [];
  }
}
