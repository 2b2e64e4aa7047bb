/** What the server answers to each buffer it receives, in every state. */
module Responses {
  import opened Basics
  import opened Messages
  import opened Splitting
  import opened Accounts
  import opened Sessions
  import opened Protocol
  import opened ServerTraffic

  /** Buffers that are no request: an unknown type id, or no encoding of a message behind a known one. */
  lemma MalformedAnswered(s: State, e: Event)
    requires e.Received? && e.fd in s.book.sessions
    ensures e.data[0] != 1 && e.data[0] != 2 && e.data[0] != 3 && e.data[0] != 8
        ==> Answer(s, e) == Failure(TYPE_ID_UNRECOGNIZED)
    ensures (e.data[0] == 1 || e.data[0] == 2 || e.data[0] == 3 || e.data[0] == 8)
            && (forall m :: !(Encode(m) <= e.data))
        ==> Answer(s, e) == Failure(UNDESERIALIZABLE)
  {
    hide Encode, HandleRequest, DecodeAs;
    if Request(e.data).Some? {
      RequestMeaning(e.data, Request(e.data).value);
    }
  }

  lemma PingAnswered(s: State, e: Event)
    requires e.Received? && e.fd in s.book.sessions && Request(e.data) == Some(Ping)
    ensures Answer(s, e) == Success
  {
    hide Request;
  }

  /**
   A registration succeeds exactly if the name is new and proper and the password proper. A refusal
   lists what is wrong, one line for each fault, in the order of the enumerators.
   */
  lemma RegisterAnswered(s: State, e: Event, u: Text, p: Text)
    requires e.Received? && e.fd in s.book.sessions && Request(e.data) == Some(Register(u, p))
    ensures Answer(s, e) == Success <==> u !in s.registry.accounts && ProperUsername(u) && ProperPassword(p)
    ensures Answer(s, e) == Success
         || (Answer(s, e).Failure?
             && Split(Answer(s, e).what, 10)
                == Chosen(Faults(s.registry, u, p),
                          [USERNAME_TAKEN_LINE, USERNAME_SHORT_LINE, USERNAME_LONG_LINE, USERNAME_SPECIAL_LINE,
                           PASSWORD_SHORT_LINE, PASSWORD_LOWERCASE_LINE, PASSWORD_UPPERCASE_LINE,
                           PASSWORD_SPECIAL_LINE, PASSWORD_NUMBER_LINE]))
  {
    hide Request, Errors, ErrorText, Split, Chosen, Faults, ProperUsername, ProperPassword, Ascii;
    RegisteredMask(s.registry, u, p);
    if Registered(s.registry, u, p).0 != 0 {
      RefusalLines(s.registry, u, p);
    }
  }

  /** A login is refused for a wrong name or password first, and then for a name that is in use. */
  lemma LoginAnswered(s: State, e: Event, u: Text, p: Text)
    requires e.Received? && e.fd in s.book.sessions && Request(e.data) == Some(Login(u, p))
    ensures Answer(s, e)
         == if u !in s.registry.accounts || s.registry.accounts[u] != s.registry.hash(p) then
              Failure(LOGIN_INCORRECT)
            else if u in s.book.userToFd && s.book.userToFd[u] in s.book.sessions then
              Failure(LOGIN_TAKEN)
            else
              Success
  {
    hide Request, Ascii, DecodeAs, Registered;
  }

  lemma ChatAnswered(s: State, e: Event, to: Text, content: Text)
    requires e.Received? && e.fd in s.book.sessions && Request(e.data) == Some(SendChat(to, content))
    ensures Answer(s, e)
         == if !s.book.sessions[e.fd].authenticated then
              Failure(UNAUTHENTICATED)
            else if to !in s.book.userToFd || s.book.userToFd[to] !in s.book.sessions then
              Failure(NO_RECIPIENT)
            else if e.chatSent && 17 + |s.book.sessions[e.fd].username| + |content| <= MESSAGE_BUFFER_SIZE then
              Success
            else
              Failure(CHAT_FAILED)
  {
    hide Request, Encode, SendResponse, Traffic, Ascii, SameLogins;
    var s0 := s.(buffer := e.data);
    if s.book.LoggedIn(e.fd) && s.book.UserEstablished(to) {
      var from := s.book.sessions[e.fd].username;
      ChatSize(from, content);
      SendResponseMeaning(s0, s.book.userToFd[to], ReceiveChat(from, content), e.chatSent);
    }
  }
}
