/** From the line a user types to the request the server handles. */
module EndToEnd {
  import opened Basics
  import opened Messages
  import opened Serialization
  import opened CommandLine
  import opened Protocol
  import Splitting

  /**
   A typeable request that fits the message buffer is built from its line, and the buffer the client
   sends, whatever its stale content, is dispatched on the server as exactly that request.
   */
  lemma TypedRequestIsHandled(request: Message, stale: Buffer)
    requires Typeable(request) && |Encode(request)| <= MESSAGE_BUFFER_SIZE
    ensures CommandOf(Arguments(LineFor(request))) == Send(request)
    ensures Serialized(request, stale).ok
    ensures Request(Serialized(request, stale).bytes) == Some(request)
  {
    hide Encode, Serialized, Request, Arguments, CommandOf;
    TypedRequest(request);
    SerializedMeaning(request, stale);
    RequestMeaning(Serialized(request, stale).bytes, request);
  }

  /** A typed chat gets exactly one final space off its content, and nothing else is changed. */
  lemma TypedChatContent(to: Text, content: Text)
    requires Splitting.Free(to, SPACE) && content != []
    ensures CommandOf(Arguments(LineFor(SendChat(to, content))))
         == Send(SendChat(to, if content[|content| - 1] == SPACE then content[..|content| - 1] else content))
  {
    CommandMeaning(LineFor(SendChat(to, content)));
    hide CommandOf, Arguments, Ascii;
    LessAfter(CHAT_WORD + [SPACE] + to + [SPACE], content);
  }
}
