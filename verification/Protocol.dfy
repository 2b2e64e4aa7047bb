/** The server as a state machine: what one event does to sessions, accounts, channels and the message buffer. */
module Protocol {
  import opened Basics
  import opened Messages
  import opened Serialization
  import opened Accounts
  import opened Sessions

  datatype State = State(book: Book, registry: Registry, buffer: Buffer)

  /**
   One event of the event loop. An accepted connection has an outcome of the key agreement; data comes
   with whether the channels carry the chat and the reply it may give rise to (`Send(...) != -1`).
   */
  datatype Event =
    | Accepted(fd: int, keyEstablished: bool)
    | Received(fd: int, data: Buffer, chatSent: bool, replySent: bool)
    | HungUp(fd: int)

  const TYPE_ID_UNREAD: Text := Ascii("Failed to read type ID")
  const TYPE_ID_UNRECOGNIZED: Text := Ascii("Type ID unrecognized")
  const UNDESERIALIZABLE: Text := Ascii("Request deserialization failed")
  // In two parts: that all characters of a literal are bytes is checked one by one, which is costly for a long one.
  const LOGIN_TAKEN: Text := Ascii("A user is already logged ") + Ascii("in under that account")
  const LOGIN_INCORRECT: Text := Ascii("Incorrect password or username")
  const CHAT_FAILED: Text := Ascii("Chat failed to send")
  const NO_RECIPIENT: Text := Ascii("Recipient does not exist")
  const UNAUTHENTICATED: Text := Ascii("Client unauthenticated")

  ghost function Initial(hash: Text -> Text): State {
    State(Book(map[], map[]), Registry(hash, map[]), seq(MESSAGE_BUFFER_SIZE, _ => 0))
  }

  predicate IsRequestId(id: byte) {
    id == PING || id == REGISTER || id == LOGIN || id == SEND_CHAT
  }

  /** Serializes into the message buffer, over whatever it holds, and sends the whole buffer. */
  function SendResponse(s: State, channel: int, m: Message, sent: bool): (r: (bool, State))
    requires channel in s.book.sessions
    ensures r.1.book.sessions.Keys == s.book.sessions.Keys
  {
    var w := Serialized(m, s.buffer);
    if w.ok && sent then (true, State(Sent(s.book, channel, w.bytes), s.registry, w.bytes))
    else (false, s.(buffer := w.bytes))
  }

  /** The response to a request and the state afterwards; no handler ever removes a session. */
  function HandleRequest(s: State, fd: int, request: Message, chatSent: bool): (r: (Message, State))
    requires fd in s.book.sessions && IsRequestId(request.TypeId())
    ensures r.1.book.sessions.Keys == s.book.sessions.Keys
  {
    match request
    case Ping =>
      (Success, s)
    case Register(u, p) =>
      var (errors, registry) := Registered(s.registry, u, p);
      (if errors == 0 then Success else Failure(ErrorText(errors)), s.(registry := registry))
    case Login(u, p) =>
      if MatchingPassword(s.registry, u, p) then
        var (success, book) := Authenticated(s.book, fd, u);
        (if success then Success else Failure(LOGIN_TAKEN), s.(book := book))
      else
        (Failure(LOGIN_INCORRECT), s)
    case SendChat(to, content) =>
      if !s.book.sessions[fd].authenticated then
        (Failure(UNAUTHENTICATED), s)
      else if !s.book.UserEstablished(to) then
        (Failure(NO_RECIPIENT), s)
      else
        var chat := ReceiveChat(s.book.sessions[fd].username, content);
        var (sent, s') := SendResponse(s, s.book.userToFd[to], chat, chatSent);
        (if sent then Success else Failure(CHAT_FAILED), s')
  }

  /** What the dispatch on the type id makes of the message buffer. */
  function Request(b: Buffer): (r: Option<Message>)
    ensures r.Some? ==> IsRequestId(b[0]) && r.value.TypeId() == b[0]
  {
    if IsRequestId(b[0]) && DecodeAs(b[0], b).Some? then Some(DecodeAs(b[0], b).value.0) else None
  }

  /** The dispatch finds a request exactly when the buffer starts with the encoding of one it handles. */
  lemma RequestMeaning(b: Buffer, m: Message)
    ensures Request(b) == Some(m) <==> IsRequestId(m.TypeId()) && Encode(m) <= b
  {
    EncodedSize(m);
    EncodeHead(m);
    hide Encode, DecodeAs, Sized;
    if IsTypeId(b[0]) {
      DecodeIffEncoded(b[0], b, m, |Encode(m)|);
      if DecodeAs(b[0], b).Some? {
        var (m', k) := DecodeAs(b[0], b).value;
        DecodeIffEncoded(b[0], b, m', k);
      }
    }
  }

  function HandleBufferedRequest(s: State, fd: int, chatSent: bool): (r: (Message, State))
    requires fd in s.book.sessions
    ensures r.1.book.sessions.Keys == s.book.sessions.Keys
  {
    if !IsRequestId(s.buffer[0]) then
      (Failure(TYPE_ID_UNRECOGNIZED), s)
    else
      match Request(s.buffer)
      case None => (Failure(UNDESERIALIZABLE), s)
      case Some(request) => HandleRequest(s, fd, request, chatSent)
  }

  /** Receiving overwrites the message buffer, then the request in it is handled. */
  function Handled(s: State, fd: int, data: Buffer, chatSent: bool): (r: (Message, State))
    requires fd in s.book.sessions
    ensures r.1.book.sessions.Keys == s.book.sessions.Keys
  {
    HandleBufferedRequest(s.(buffer := data), fd, chatSent)
  }

  function Step(s: State, e: Event): State {
    match e
    case Accepted(fd, keyEstablished) =>
      if fd == -1 then s else s.(book := Created(s.book, fd, keyEstablished).1)
    case HungUp(fd) =>
      if fd in s.book.sessions then s.(book := Destroyed(s.book, fd).1) else s
    case Received(fd, data, chatSent, replySent) =>
      if fd in s.book.sessions then
        var (response, s') := Handled(s, fd, data, chatSent);
        SendResponse(s', fd, response, replySent).1
      else
        s
  }

  /** The state after a whole run of events. */
  function Run(s: State, events: seq<Event>): State {
    if events == [] then s else Step(Run(s, events[..|events| - 1]), events[|events| - 1])
  }
}
