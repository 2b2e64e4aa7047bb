/** Which messages one event puts on which connection. */
module ServerTraffic {
  import opened Basics
  import opened Messages
  import opened Serialization
  import opened Accounts
  import opened Sessions
  import opened Reception
  import opened Protocol

  /** A message for one connection. */
  type Post = (int, Message)

  function At(post: Option<Post>, fd: int): seq<Message> {
    if post.Some? && post.value.0 == fd then [post.value.1] else []
  }

  /** From `b` to `b'` every session stays, and its channel gains just the given chat and the given reply. */
  ghost predicate Traffic(b: Book, b': Book, chat: Option<Post>, reply: Option<Post>) {
    && b'.sessions.Keys == b.sessions.Keys
    && forall fd :: fd in b.sessions ==> Gains(b.Log(fd), b'.Log(fd), At(chat, fd), At(reply, fd))
  }

  ghost predicate Gains(log: seq<Buffer>, log': seq<Buffer>, chats: seq<Message>, replies: seq<Message>) {
    && log <= log' && |log'| == |log| + |chats| + |replies|
    && ChatsOn(log') == ChatsOn(log) + chats
    && RepliesOn(log') == RepliesOn(log) + replies
    && (WellFormed(log) ==> WellFormed(log'))
  }

  lemma GainsOne(log: seq<Buffer>, b: Buffer, m: Message)
    requires (IsResponse(m) || m.ReceiveChat?) && Encode(m) <= b
    ensures Gains(log, log + [b], if m.ReceiveChat? then [m] else [], if m.ReceiveChat? then [] else [m])
  {
    SortMeaning(b, m);
    LogAppend(log, [b]);
    LogOne(b);
    hide Sort, RepliesOn, ChatsOn, Encode;
  }

  lemma GainsNothing(log: seq<Buffer>)
    ensures Gains(log, log, [], [])
  {
    hide Sort, RepliesOn, ChatsOn;
  }

  lemma GainsBoth(log: seq<Buffer>, log': seq<Buffer>, log'': seq<Buffer>, chats: seq<Message>, replies: seq<Message>)
    requires Gains(log, log', chats, []) && Gains(log', log'', [], replies)
    ensures Gains(log, log'', chats, replies)
  {
    hide Sort, RepliesOn, ChatsOn;
    assert ChatsOn(log'') == ChatsOn(log) + chats + [];
    assert RepliesOn(log'') == RepliesOn(log) + [] + replies;
  }

  lemma NoTraffic(b: Book, b': Book)
    requires b'.sessions.Keys == b.sessions.Keys
    requires forall fd :: fd in b.sessions ==> b'.Log(fd) == b.Log(fd)
    ensures Traffic(b, b', None, None)
  {
    forall fd | fd in b.sessions
      ensures Gains(b.Log(fd), b.Log(fd), [], [])
    {
      GainsNothing(b.Log(fd));
    }
  }

  lemma SentTraffic(b: Book, channel: int, buffer: Buffer, m: Message)
    requires channel in b.sessions && (IsResponse(m) || m.ReceiveChat?) && Encode(m) <= buffer
    ensures var post := Some((channel, m));
            && (m.ReceiveChat? ==> Traffic(b, Sent(b, channel, buffer), post, None))
            && (IsResponse(m) ==> Traffic(b, Sent(b, channel, buffer), None, post))
    ensures SameLogins(b, Sent(b, channel, buffer))
  {
    GainsOne(b.Log(channel), buffer, m);
    forall fd | fd in b.sessions
      ensures Gains(b.Log(fd), b.Log(fd), [], [])
    {
      GainsNothing(b.Log(fd));
    }
    hide Encode, Gains;
  }

  /** Sending succeeds exactly if the encoding fits and the channel carries it, and then adds that message. */
  lemma SendResponseMeaning(s: State, channel: int, m: Message, sent: bool)
    requires channel in s.book.sessions && (IsResponse(m) || m.ReceiveChat?)
    ensures var (ok, s') := SendResponse(s, channel, m, sent);
            var post := if ok then Some((channel, m)) else None;
            && (ok <==> sent && |Encode(m)| <= MESSAGE_BUFFER_SIZE)
            && s'.registry == s.registry && SameLogins(s.book, s'.book)
            && (m.ReceiveChat? ==> Traffic(s.book, s'.book, post, None))
            && (IsResponse(m) ==> Traffic(s.book, s'.book, None, post))
  {
    SerializedMeaning(m, s.buffer);
    hide Serialized, Encode, Traffic;
    if SendResponse(s, channel, m, sent).0 {
      SentTraffic(s.book, channel, Serialized(m, s.buffer).bytes, m);
    } else {
      NoTraffic(s.book, s.book);
    }
  }

  /** Who is logged in where is the same in both. */
  ghost predicate SameLogins(b: Book, b': Book) {
    && b'.userToFd == b.userToFd
    && b'.sessions.Keys == b.sessions.Keys
    && forall fd :: fd in b.sessions ==>
         b'.sessions[fd].username == b.sessions[fd].username
         && b'.sessions[fd].authenticated == b.sessions[fd].authenticated
  }

  lemma SameLoginsSameInverse(b: Book, b': Book)
    requires SameLogins(b, b')
    ensures Inverse(b) <==> Inverse(b')
  {
    assert forall fd :: b.LoggedIn(fd) <==> b'.LoggedIn(fd);
    assert forall fd, u :: b.Owns(fd, u) <==> b'.Owns(fd, u);
    assert b'.userToFd == b.userToFd;
  }

  /** The chat that a request puts on a channel: to the entry of the recipient, from the sender's own name. */
  function Relayed(b: Book, fd: int, request: Option<Message>, chatSent: bool): Option<Post> {
    match request
    case Some(SendChat(to, content)) =>
      if b.LoggedIn(fd) && b.UserEstablished(to) && chatSent
         && 17 + |b.sessions[fd].username| + |content| <= MESSAGE_BUFFER_SIZE
      then Some((b.userToFd[to], ReceiveChat(b.sessions[fd].username, content)))
      else None
    case _ => None
  }

  lemma ReplySize(m: Message)
    requires IsResponse(m)
    ensures |Encode(m)| == if m.Failure? then 9 + |m.what| else 1
  {
    EncodedSize(m);
    hide Encode;
  }

  lemma ChatSize(from: Text, content: Text)
    ensures |Encode(ReceiveChat(from, content))| == 17 + |from| + |content|
  {
    EncodedSize(ReceiveChat(from, content));
    hide Encode;
  }

  lemma FailureTextsFit()
    ensures |UNDESERIALIZABLE| <= 60 && |TYPE_ID_UNRECOGNIZED| <= 60 && |LOGIN_TAKEN| <= 60
    ensures |LOGIN_INCORRECT| <= 60 && |CHAT_FAILED| <= 60 && |NO_RECIPIENT| <= 60 && |UNAUTHENTICATED| <= 60
  {
  }

  /** Every response the server computes is a Success or a Failure, and its encoding fits the buffer. */
  lemma ResponseFits(s: State, fd: int, data: Buffer, chatSent: bool)
    requires fd in s.book.sessions
    ensures var response := Handled(s, fd, data, chatSent).0;
            IsResponse(response) && |Encode(response)| <= MESSAGE_BUFFER_SIZE
  {
    var response := Handled(s, fd, data, chatSent).0;
    hide Encode, Request, ErrorText, Registered, Authenticated, SendResponse, Ascii;
    FailureTextsFit();
    ReplySize(response);
    match Request(data)
    case None =>
    case Some(Register(u, p)) =>
      ErrorTextBound(Registered(s.registry, u, p).0);
    case _ =>
  }

  lemma ChatTraffic(s: State, fd: int, to: Text, content: Text, chatSent: bool)
    requires fd in s.book.sessions
    ensures var (response, s') := HandleRequest(s, fd, SendChat(to, content), chatSent);
            var chat := Relayed(s.book, fd, Some(SendChat(to, content)), chatSent);
            && Traffic(s.book, s'.book, chat, None) && SameLogins(s.book, s'.book) && s'.registry == s.registry
            && (response == Success <==> chat.Some?)
  {
    hide Encode, Traffic, SendResponse, Ascii;
    if s.book.LoggedIn(fd) && s.book.UserEstablished(to) {
      var chat := ReceiveChat(s.book.sessions[fd].username, content);
      ChatSize(s.book.sessions[fd].username, content);
      SendResponseMeaning(s, s.book.userToFd[to], chat, chatSent);
    } else {
      NoTraffic(s.book, s.book);
    }
  }

  lemma OtherTraffic(s: State, fd: int, request: Message, chatSent: bool)
    requires fd in s.book.sessions && IsRequestId(request.TypeId()) && !request.SendChat?
    ensures Traffic(s.book, HandleRequest(s, fd, request, chatSent).1.book, None, None)
  {
    var (response, s') := HandleRequest(s, fd, request, chatSent);
    hide Traffic, ErrorText, Registered, Ascii;
    NoTraffic(s.book, s'.book);
  }

  /**
   Handling a buffer puts the relayed chat and nothing else on any channel, and a request to send a
   chat is answered with success exactly if the chat was relayed.
   */
  lemma HandledTraffic(s: State, fd: int, data: Buffer, chatSent: bool)
    requires fd in s.book.sessions
    ensures var (response, s') := Handled(s, fd, data, chatSent);
            var chat := Relayed(s.book, fd, Request(data), chatSent);
            && Traffic(s.book, s'.book, chat, None)
            && (Request(data).Some? && Request(data).value.SendChat? ==> (response == Success <==> chat.Some?))
  {
    var s0 := s.(buffer := data);
    hide Traffic, HandleRequest, Request;
    match Request(data)
    case None =>
      NoTraffic(s.book, s.book);
    case Some(SendChat(to, content)) =>
      ChatTraffic(s0, fd, to, content, chatSent);
    case Some(request) =>
      OtherTraffic(s0, fd, request, chatSent);
  }

  /** The response the server computes for an event. */
  function Answer(s: State, e: Event): Message
    requires e.Received? && e.fd in s.book.sessions
  {
    Handled(s, e.fd, e.data, e.chatSent).0
  }

  /**
   One received buffer: the requesting connection gains exactly one reply, if its channel carries it;
   the recipient of a relayed chat gains exactly that chat; nothing else is put on any connection.
   */
  lemma StepTraffic(s: State, e: Event)
    requires e.Received? && e.fd in s.book.sessions
    ensures IsResponse(Answer(s, e))
    ensures Traffic(s.book, Step(s, e).book, Relayed(s.book, e.fd, Request(e.data), e.chatSent),
                    if e.replySent then Some((e.fd, Answer(s, e))) else None)
  {
    var (response, s') := Handled(s, e.fd, e.data, e.chatSent);
    var s'' := Step(s, e);
    var chat := Relayed(s.book, e.fd, Request(e.data), e.chatSent);
    var reply := if e.replySent then Some((e.fd, response)) else None;
    ResponseFits(s, e.fd, e.data, e.chatSent);
    HandledTraffic(s, e.fd, e.data, e.chatSent);
    SendResponseMeaning(s', e.fd, response, e.replySent);
    assert s'' == SendResponse(s', e.fd, response, e.replySent).1;
    hide Encode, Sort, RepliesOn, ChatsOn, DecodeAs, Serialized, Handled, Step, SendResponse, Relayed, Gains;
    forall fd | fd in s.book.sessions
      ensures Gains(s.book.Log(fd), s''.book.Log(fd), At(chat, fd), At(reply, fd))
    {
      GainsBoth(s.book.Log(fd), s'.book.Log(fd), s''.book.Log(fd), At(chat, fd), At(reply, fd));
    }
  }
}
