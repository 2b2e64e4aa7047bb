/** What holds of the server in every run: stable accounts, sound sessions, map agreement, single login, routing. */
module ServerRuns {
  import opened Basics
  import opened Messages
  import opened Accounts
  import opened Sessions
  import opened Reception
  import opened Protocol
  import opened ServerTraffic
  import opened Responses

  // ---------- What one event does to logins and accounts ----------

  /** The sessions as a received buffer leaves them, up to what is sent on their channels. */
  function LoginsAfter(s: State, fd: int, data: Buffer): Book {
    match Request(data)
    case Some(Login(u, p)) => if MatchingPassword(s.registry, u, p) then Authenticated(s.book, fd, u).1 else s.book
    case _ => s.book
  }

  function RegistryAfter(r: Registry, data: Buffer): Registry {
    match Request(data)
    case Some(Register(u, p)) => Registered(r, u, p).1
    case _ => r
  }

  lemma HandledLogins(s: State, fd: int, data: Buffer, chatSent: bool)
    requires fd in s.book.sessions
    ensures var s' := Handled(s, fd, data, chatSent).1;
            SameLogins(LoginsAfter(s, fd, data), s'.book) && s'.registry == RegistryAfter(s.registry, data)
  {
    hide Request, Registered, Ascii, ErrorText, SendResponse, Traffic, Authenticated, MatchingPassword, DecodeAs;
    match Request(data)
    case Some(SendChat(to, content)) =>
      ChatTraffic(s.(buffer := data), fd, to, content, chatSent);
    case _ =>
  }

  lemma StepLogins(s: State, e: Event)
    requires e.Received? && e.fd in s.book.sessions
    ensures var s' := Step(s, e);
            SameLogins(LoginsAfter(s, e.fd, e.data), s'.book) && s'.registry == RegistryAfter(s.registry, e.data)
  {
    hide Handled, SendResponse, LoginsAfter, RegistryAfter, Encode, Traffic;
    var (response, s') := Handled(s, e.fd, e.data, e.chatSent);
    assert Step(s, e) == SendResponse(s', e.fd, response, e.replySent).1;
    HandledLogins(s, e.fd, e.data, e.chatSent);
    ResponseFits(s, e.fd, e.data, e.chatSent);
    hide Step;
    SendResponseMeaning(s', e.fd, response, e.replySent);
  }

  // ---------- Every run: accounts ----------

  ghost predicate Kept(r: Registry, r': Registry) {
    r'.hash == r.hash && forall u :: u in r.accounts ==> u in r'.accounts && r'.accounts[u] == r.accounts[u]
  }

  lemma StepKeepsAccounts(s: State, e: Event)
    ensures Kept(s.registry, Step(s, e).registry)
    ensures forall u :: u in Step(s, e).registry.accounts && u !in s.registry.accounts ==> ProperUsername(u)
  {
    if e.Received? && e.fd in s.book.sessions {
      StepLogins(s, e);
      hide Step, ProperUsername;
      match Request(e.data)
      case Some(Register(u, p)) => RegisteredMeaning(s.registry, u, p);
      case _ =>
    }
  }

  /** The table of accounts only grows, and no stored hash ever changes. */
  lemma {:induction false} RunKeepsAccounts(s: State, events: seq<Event>)
    ensures Kept(s.registry, Run(s, events).registry)
  {
    if events != [] {
      RunKeepsAccounts(s, events[..|events| - 1]);
      StepKeepsAccounts(Run(s, events[..|events| - 1]), events[|events| - 1]);
    }
  }

  /** Once `u` is registered, whether a password matches never changes again. */
  lemma MatchingIsStable(s: State, events: seq<Event>, u: Text, p: Text)
    requires u in s.registry.accounts
    ensures MatchingPassword(Run(s, events).registry, u, p) == MatchingPassword(s.registry, u, p)
  {
    RunKeepsAccounts(s, events);
  }

  /** The password of the first accepted registration of `u` is the password of `u` in the rest of every run. */
  lemma FirstPasswordForever(s: State, e: Event, u: Text, p: Text, events: seq<Event>, q: Text)
    requires e.Received? && e.fd in s.book.sessions && Request(e.data) == Some(Register(u, p))
    ensures Answer(s, e) == Success <==> u !in s.registry.accounts && ProperUsername(u) && ProperPassword(p)
    ensures Answer(s, e) == Success ==>
              (MatchingPassword(Run(Step(s, e), events).registry, u, q) <==> s.registry.hash(q) == s.registry.hash(p))
  {
    RegisteredMeaning(s.registry, u, p);
    StepLogins(s, e);
    RunKeepsAccounts(Step(s, e), events);
    hide Step, Run, Registered, Request, Violates, ErrorText, ProperUsername, ProperPassword;
  }

  // ---------- Every run: sound sessions ----------

  /**
   Registered names are proper, names with an entry and names of authenticated sessions are registered,
   unauthenticated sessions have no name, and channels carry nothing but replies and chats.
   */
  ghost predicate Sound(s: State) {
    && (forall u :: u in s.registry.accounts ==> ProperUsername(u))
    && (forall u :: u in s.book.userToFd ==> u in s.registry.accounts)
    && (forall fd :: fd in s.book.sessions ==> SoundSession(s.registry, s.book.sessions[fd]))
  }

  ghost predicate SoundSession(r: Registry, session: Session) {
    && (if session.authenticated then session.username in r.accounts else session.username == [])
    && WellFormed(session.sent)
  }

  lemma LoginsAfterSound(s: State, fd: int, data: Buffer)
    requires Sound(s) && fd in s.book.sessions
    ensures var b := LoginsAfter(s, fd, data);
            && (forall u :: u in b.userToFd ==> u in s.registry.accounts)
            && forall x :: x in b.sessions ==>
                 if b.sessions[x].authenticated then b.sessions[x].username in s.registry.accounts
                 else b.sessions[x].username == []
  {
    hide Request, ProperUsername, WellFormed;
    assert forall x :: x in s.book.sessions ==> SoundSession(s.registry, s.book.sessions[x]);
  }

  lemma ReceivedKeepsSound(s: State, e: Event)
    requires Sound(s) && e.Received? && e.fd in s.book.sessions
    ensures Sound(Step(s, e))
  {
    var s' := Step(s, e);
    var chat := Relayed(s.book, e.fd, Request(e.data), e.chatSent);
    var reply := if e.replySent then Some((e.fd, Answer(s, e))) else None;
    StepKeepsAccounts(s, e);
    LoginsAfterSound(s, e.fd, e.data);
    StepLogins(s, e);
    StepTraffic(s, e);
    hide Step, Request, ProperUsername, Relayed, Answer, LoginsAfter, RegistryAfter, WellFormed, RepliesOn, ChatsOn;
    forall fd | fd in s'.book.sessions
      ensures SoundSession(s'.registry, s'.book.sessions[fd])
    {
      assert SoundSession(s.registry, s.book.sessions[fd]);
      assert Gains(s.book.Log(fd), s'.book.Log(fd), At(chat, fd), At(reply, fd));
    }
  }

  lemma StepKeepsSound(s: State, e: Event)
    requires Sound(s)
    ensures Sound(Step(s, e))
  {
    if e.Received? && e.fd in s.book.sessions {
      ReceivedKeepsSound(s, e);
    } else {
      hide ProperUsername;
      var s' := Step(s, e);
      forall fd | fd in s'.book.sessions
        ensures SoundSession(s'.registry, s'.book.sessions[fd])
      {
        assert fd in s.book.sessions ==> SoundSession(s.registry, s.book.sessions[fd]);
      }
    }
  }

  /** From the start, in every run, whoever logs in how often. */
  lemma {:induction false} RunKeepsSound(hash: Text -> Text, events: seq<Event>)
    ensures Sound(Run(Initial(hash), events))
  {
    if events != [] {
      RunKeepsSound(hash, events[..|events| - 1]);
      StepKeepsSound(Run(Initial(hash), events[..|events| - 1]), events[|events| - 1]);
    }
  }

  /**
   In every run, relaying a chat between registered names changes its encoded size by at most 24 bytes,
   and content of up to 65487 bytes always fits the message buffer.
   */
  lemma RelayBounds(hash: Text -> Text, events: seq<Event>, fd: int, to: Text, content: Text)
    requires Run(Initial(hash), events).book.LoggedIn(fd)
    requires Run(Initial(hash), events).book.UserEstablished(to)
    ensures var from := Run(Initial(hash), events).book.sessions[fd].username;
            var sent, relayed := |Encode(SendChat(to, content))|, |Encode(ReceiveChat(from, content))|;
            && -24 <= relayed - sent <= 24
            && (|content| <= 65487 ==> relayed <= MESSAGE_BUFFER_SIZE)
  {
    var s := Run(Initial(hash), events);
    var from := s.book.sessions[fd].username;
    RunKeepsSound(hash, events);
    assert SoundSession(s.registry, s.book.sessions[fd]);
    assert ProperUsername(from) && ProperUsername(to);
    ChatSize(from, content);
    EncodedSize(SendChat(to, content));
    hide Run, Encode;
  }

  // ---------- Every run: the two maps agree ----------

  /** A correct login, under a name that is not established, on a connection that is already logged in. */
  predicate SecondLogin(s: State, e: Event) {
    && e.Received? && s.book.LoggedIn(e.fd)
    && match Request(e.data)
       case Some(Login(u, p)) => MatchingPassword(s.registry, u, p) && !s.book.UserEstablished(u)
       case _ => false
  }

  /** These are the login requests that succeed on a connection already logged in. */
  lemma SecondLoginSucceeds(s: State, e: Event)
    ensures SecondLogin(s, e)
       <==> e.Received? && s.book.LoggedIn(e.fd)
            && Request(e.data).Some? && Request(e.data).value.Login? && Answer(s, e) == Success
  {
    hide Request, Ascii, DecodeAs;
  }

  /** An event keeps the maps inverse exactly when it is not a second login. */
  lemma StepKeepsInverseIff(s: State, e: Event)
    requires Inverse(s.book)
    ensures Inverse(Step(s, e).book) <==> !SecondLogin(s, e)
  {
    match e
    case Accepted(fd, keyEstablished) =>
      CreatedKeepsInverse(s.book, fd, keyEstablished);
    case HungUp(fd) =>
      DestroyedKeepsInverse(s.book, fd);
    case Received(fd, data, _, _) =>
      if fd in s.book.sessions {
        StepLogins(s, e);
        SameLoginsSameInverse(LoginsAfter(s, fd, data), Step(s, e).book);
        hide Step, Inverse, Request, Ascii;
        match Request(data)
        case Some(Login(u, p)) => AuthenticatedKeepsInverseIff(s.book, fd, u);
        case _ =>
      }
  }

  ghost predicate NoSecondLogin(s: State, events: seq<Event>) {
    forall i :: 0 <= i < |events| ==> !SecondLogin(Run(s, events[..i]), events[i])
  }

  ghost predicate AlwaysInverse(s: State, events: seq<Event>) {
    forall i :: 0 <= i <= |events| ==> Inverse(Run(s, events[..i]).book)
  }

  /** What holds at every point of a run, in terms of the run up to its last event. */
  lemma SplitLast(s: State, front: seq<Event>, last: Event)
    ensures AlwaysInverse(s, front + [last])
       <==> AlwaysInverse(s, front) && Inverse(Run(s, front + [last]).book)
    ensures NoSecondLogin(s, front + [last])
       <==> NoSecondLogin(s, front) && !SecondLogin(Run(s, front), last)
  {
    hide Run, Inverse, SecondLogin;
    var all := front + [last];
    assert forall i :: 0 <= i <= |front| ==> all[..i] == front[..i];
    assert front[..|front|] == front && all[..|all|] == all;
  }

  /** The maps are inverse throughout a run if and only if no connection logs in successfully twice. */
  lemma {:induction false} RunKeepsInverseIff(s: State, events: seq<Event>)
    requires Inverse(s.book)
    ensures AlwaysInverse(s, events) <==> NoSecondLogin(s, events)
    ensures AlwaysInverse(s, events) ==> Inverse(Run(s, events).book)
  {
    hide Step, Inverse, SecondLogin;
    if events != [] {
      var front, last := events[..|events| - 1], events[|events| - 1];
      assert events == front + [last] && Run(s, events) == Step(Run(s, front), last);
      hide Run, AlwaysInverse, NoSecondLogin;
      RunKeepsInverseIff(s, front);
      SplitLast(s, front, last);
      if AlwaysInverse(s, front) {
        StepKeepsInverseIff(Run(s, front), last);
      }
    }
  }

  /** From the start: without second logins, the maps are inverse at the end of every run. */
  lemma InverseFromStart(hash: Text -> Text, events: seq<Event>)
    requires NoSecondLogin(Initial(hash), events)
    ensures Inverse(Run(Initial(hash), events).book)
  {
    RunKeepsInverseIff(Initial(hash), events);
  }

  // ---------- Single login ----------

  /** The event that delivers a login request. */
  predicate IsLogin(e: Event, fd: int, u: Text, p: Text) {
    e.Received? && e.fd == fd && Request(e.data) == Some(Login(u, p))
  }

  /** Where the maps agree, a login succeeds exactly if the password matches and no live session has that name. */
  lemma LoginSucceedsIff(s: State, e: Event, fd: int, u: Text, p: Text)
    requires Inverse(s.book) && fd in s.book.sessions && IsLogin(e, fd, u, p)
    ensures Answer(s, e) == Success
       <==> MatchingPassword(s.registry, u, p) && !exists x :: s.book.Owns(x, u)
    ensures !MatchingPassword(s.registry, u, p) ==> Answer(s, e) == Failure(LOGIN_INCORRECT)
    ensures MatchingPassword(s.registry, u, p) && (exists x :: s.book.Owns(x, u))
        ==> Answer(s, e) == Failure(LOGIN_TAKEN)
    ensures Answer(s, e) == Success ==> Step(s, e).book.Owns(fd, u)
  {
    EstablishedMeansOwned(s.book, u);
    StepLogins(s, e);
    hide Step, Inverse, Request, Ascii;
  }

  /** No two live sessions share a username. */
  lemma OneSessionPerUser(b: Book, x: int, y: int, u: Text)
    requires Inverse(b) && b.Owns(x, u) && b.Owns(y, u)
    ensures x == y
  {
    assert b.LoggedIn(x) && b.LoggedIn(y);
  }

  /**
   In every run without second logins: while `owner` is logged in as `u`, a correct login as `u` on
   another connection is refused, and as soon as `owner` has hung up, it succeeds.
   */
  lemma LoginAfterOwnerLeaves(hash: Text -> Text, events: seq<Event>, owner: int, e: Event, fd: int, u: Text, p: Text)
    requires NoSecondLogin(Initial(hash), events)
    requires var s := Run(Initial(hash), events);
             s.book.Owns(owner, u) && fd in s.book.sessions && fd != owner
             && MatchingPassword(s.registry, u, p) && IsLogin(e, fd, u, p)
    ensures var s := Run(Initial(hash), events);
            var s' := Step(s, HungUp(owner));
            && Answer(s, e) == Failure(LOGIN_TAKEN)
            && fd in s'.book.sessions && Answer(s', e) == Success
  {
    var s := Run(Initial(hash), events);
    InverseFromStart(hash, events);
    var s' := Step(s, HungUp(owner));
    DestroyedKeepsInverse(s.book, owner);
    EstablishedMeansOwned(s.book, u);
    if x :| s'.book.Owns(x, u) {
      OneSessionPerUser(s.book, owner, x, u);
    }
    LoginSucceedsIff(s', e, fd, u, p);
    hide Run, Inverse, Request, Ascii;
  }

  // ---------- Routing ----------

  /**
   In every run without second logins, a chat answered with success is put on exactly one connection,
   the one logged in as the recipient, as one buffer that reads back as the sender's own name and the
   content byte for byte; no other connection gets a chat, and replies go to the sender alone.
   */
  lemma ChatReachesRecipient(hash: Text -> Text, events: seq<Event>, e: Event, to: Text, content: Text)
    requires NoSecondLogin(Initial(hash), events)
    requires e.Received? && e.fd in Run(Initial(hash), events).book.sessions
    requires Request(e.data) == Some(SendChat(to, content))
    requires Answer(Run(Initial(hash), events), e) == Success
    ensures var s := Run(Initial(hash), events);
            var s' := Step(s, e);
            var chat := ReceiveChat(s.book.sessions[e.fd].username, content);
            && s.book.LoggedIn(e.fd) && s.book.UserEstablished(to)
            && (forall x :: s.book.Owns(x, to) <==> x == s.book.userToFd[to])
            && Traffic(s.book, s'.book, Some((s.book.userToFd[to], chat)),
                       if e.replySent then Some((e.fd, Success)) else None)
  {
    var s := Run(Initial(hash), events);
    InverseFromStart(hash, events);
    ChatRouted(s, e, to, content);
  }

  lemma ChatRouted(s: State, e: Event, to: Text, content: Text)
    requires Inverse(s.book) && e.Received? && e.fd in s.book.sessions
    requires Request(e.data) == Some(SendChat(to, content)) && Answer(s, e) == Success
    ensures s.book.LoggedIn(e.fd) && s.book.UserEstablished(to)
    ensures forall x :: s.book.Owns(x, to) <==> x == s.book.userToFd[to]
    ensures var chat := ReceiveChat(s.book.sessions[e.fd].username, content);
            Traffic(s.book, Step(s, e).book, Some((s.book.userToFd[to], chat)),
                    if e.replySent then Some((e.fd, Success)) else None)
  {
    hide Step, Inverse, Request, Traffic, Handled;
    HandledTraffic(s, e.fd, e.data, e.chatSent);
    EstablishedMeansOwned(s.book, to);
    StepTraffic(s, e);
  }

  /** Where the maps agree, exactly these chats are answered with success, and the others with what is wrong. */
  lemma ChatSucceedsIff(s: State, e: Event, to: Text, content: Text)
    requires Inverse(s.book) && e.Received? && e.fd in s.book.sessions
    requires Request(e.data) == Some(SendChat(to, content))
    ensures Answer(s, e)
         == if !s.book.LoggedIn(e.fd) then Failure(UNAUTHENTICATED)
            else if !exists r :: s.book.Owns(r, to) then Failure(NO_RECIPIENT)
            else if e.chatSent && 17 + |s.book.sessions[e.fd].username| + |content| <= MESSAGE_BUFFER_SIZE then Success
            else Failure(CHAT_FAILED)
  {
    EstablishedMeansOwned(s.book, to);
    ChatAnswered(s, e, to, content);
    hide Inverse, Ascii, Answer, Request;
  }

  // ---------- A second login, from the start ----------

  /** A name and password that can be registered, in one buffer. */
  predicate Registrable(u: Text, p: Text) {
    ProperUsername(u) && ProperPassword(p) && 17 + |u| + |p| <= MESSAGE_BUFFER_SIZE
  }

  function BufferOf(m: Message): (b: Buffer)
    requires |Encode(m)| <= MESSAGE_BUFFER_SIZE
    ensures Encode(m) <= b
  {
    Encode(m) + seq(MESSAGE_BUFFER_SIZE - |Encode(m)|, _ => 0)
  }

  function Delivered(m: Message): (e: Event)
    requires |Encode(m)| <= MESSAGE_BUFFER_SIZE
  {
    Received(3, BufferOf(m), true, true)
  }

  /** A run of one connection: it registers two accounts and logs in under one and then the other. */
  function TwoLogins(a: Text, p: Text, b: Text, q: Text): seq<Event>
    requires |Encode(Register(a, p))| <= MESSAGE_BUFFER_SIZE && |Encode(Register(b, q))| <= MESSAGE_BUFFER_SIZE
    requires |Encode(Login(a, p))| <= MESSAGE_BUFFER_SIZE && |Encode(Login(b, q))| <= MESSAGE_BUFFER_SIZE
  {
    [Accepted(3, true), Delivered(Register(a, p)), Delivered(Register(b, q)),
     Delivered(Login(a, p)), Delivered(Login(b, q))]
  }

  lemma CredentialsFit(u: Text, p: Text)
    requires Registrable(u, p)
    ensures |Encode(Register(u, p))| <= MESSAGE_BUFFER_SIZE && |Encode(Login(u, p))| <= MESSAGE_BUFFER_SIZE
  {
    EncodedSize(Register(u, p));
    EncodedSize(Login(u, p));
    hide Encode;
  }

  lemma RunSnoc(s: State, events: seq<Event>, e: Event)
    ensures Run(s, events + [e]) == Step(Run(s, events), e)
  {
    assert (events + [e])[..|events|] == events;
  }

  lemma Registers(s: State, u: Text, p: Text)
    requires Registrable(u, p) && u !in s.registry.accounts && 3 in s.book.sessions
    requires |Encode(Register(u, p))| <= MESSAGE_BUFFER_SIZE
    ensures var s' := Step(s, Delivered(Register(u, p)));
            SameLogins(s.book, s'.book)
            && s'.registry == s.registry.(accounts := s.registry.accounts[u := s.registry.hash(p)])
  {
    RequestMeaning(BufferOf(Register(u, p)), Register(u, p));
    StepLogins(s, Delivered(Register(u, p)));
    RegisteredMeaning(s.registry, u, p);
    hide Step, Request, Registered, BufferOf, Encode;
  }

  lemma LogsIn(s: State, u: Text, p: Text)
    requires |Encode(Login(u, p))| <= MESSAGE_BUFFER_SIZE && 3 in s.book.sessions
    requires MatchingPassword(s.registry, u, p) && !s.book.UserEstablished(u)
    ensures var s' := Step(s, Delivered(Login(u, p)));
            SameLogins(Authenticated(s.book, 3, u).1, s'.book) && s'.registry == s.registry
    ensures SecondLogin(s, Delivered(Login(u, p))) <==> s.book.LoggedIn(3)
  {
    RequestMeaning(BufferOf(Login(u, p)), Login(u, p));
    StepLogins(s, Delivered(Login(u, p)));
    hide Step, Request, Registered, BufferOf, Encode;
  }

  lemma NotALogin(s: State, u: Text, p: Text)
    requires |Encode(Register(u, p))| <= MESSAGE_BUFFER_SIZE
    ensures !SecondLogin(s, Delivered(Register(u, p)))
  {
    RequestMeaning(BufferOf(Register(u, p)), Register(u, p));
    hide Request, BufferOf, Encode;
  }

  /** One connection, not logged in, and no entries. */
  ghost predicate OneStranger(b: Book) {
    b.sessions.Keys == {3} && !b.sessions[3].authenticated && b.userToFd == map[]
  }

  /** The run so far, its state, and that nobody has logged in twice in it. */
  ghost predicate RunsTo(s0: State, events: seq<Event>, s: State) {
    Run(s0, events) == s && NoSecondLogin(s0, events)
  }

  lemma RunsOn(s0: State, events: seq<Event>, s: State, e: Event)
    requires RunsTo(s0, events, s) && !SecondLogin(s, e)
    ensures RunsTo(s0, events + [e], Step(s, e))
  {
    hide Step, SecondLogin, Run, NoSecondLogin;
    RunSnoc(s0, events, e);
    SplitLast(s0, events, e);
  }

  lemma OneAccepted(hash: Text -> Text)
    ensures var s := Step(Initial(hash), Accepted(3, true));
            RunsTo(Initial(hash), [Accepted(3, true)], s) && s.registry == Registry(hash, map[]) && OneStranger(s.book)
  {
    assert RunsTo(Initial(hash), [], Initial(hash));
    RunsOn(Initial(hash), [], Initial(hash), Accepted(3, true));
    assert [] + [Accepted(3, true)] == [Accepted(3, true)];
  }

  /** Registering two accounts on a connection that is not logged in. */
  lemma TwoAccounts(s: State, a: Text, p: Text, b: Text, q: Text)
    requires Registrable(a, p) && Registrable(b, q) && a != b
    requires |Encode(Register(a, p))| <= MESSAGE_BUFFER_SIZE && |Encode(Register(b, q))| <= MESSAGE_BUFFER_SIZE
    requires OneStranger(s.book) && s.registry.accounts == map[]
    ensures var s' := Step(Step(s, Delivered(Register(a, p))), Delivered(Register(b, q)));
            OneStranger(s'.book) && MatchingPassword(s'.registry, a, p) && MatchingPassword(s'.registry, b, q)
  {
    hide Registrable, Delivered, Encode, Step;
    Registers(s, a, p);
    Registers(Step(s, Delivered(Register(a, p))), b, q);
  }

  /** Logging in under two names on one connection. */
  lemma LogsInTwice(s: State, a: Text, p: Text, b: Text, q: Text)
    requires |Encode(Login(a, p))| <= MESSAGE_BUFFER_SIZE && |Encode(Login(b, q))| <= MESSAGE_BUFFER_SIZE && a != b
    requires OneStranger(s.book) && MatchingPassword(s.registry, a, p) && MatchingPassword(s.registry, b, q)
    ensures !SecondLogin(s, Delivered(Login(a, p)))
    ensures SecondLogin(Step(s, Delivered(Login(a, p))), Delivered(Login(b, q)))
  {
    hide Delivered, Encode, Step, SecondLogin;
    LogsIn(s, a, p);
    LogsIn(Step(s, Delivered(Login(a, p))), b, q);
  }

  /** A run whose last event is its one second login. */
  lemma EndsInverseThenNot(hash: Text -> Text, events: seq<Event>)
    requires |events| > 0 && NoSecondLogin(Initial(hash), events[..|events| - 1])
    requires SecondLogin(Run(Initial(hash), events[..|events| - 1]), events[|events| - 1])
    ensures Inverse(Run(Initial(hash), events[..|events| - 1]).book) && !Inverse(Run(Initial(hash), events).book)
  {
    hide Step, NoSecondLogin, SecondLogin, Inverse;
    InverseFromStart(hash, events[..|events| - 1]);
    StepKeepsInverseIff(Run(Initial(hash), events[..|events| - 1]), events[|events| - 1]);
  }

  /**
   From the start, whatever the hash: every such run ends with a second login, up to which the two maps
   were inverse and after which they are not.
   */
  lemma SecondLoginFromStart(hash: Text -> Text, a: Text, p: Text, b: Text, q: Text)
    requires Registrable(a, p) && Registrable(b, q) && a != b
    ensures |Encode(Register(a, p))| <= MESSAGE_BUFFER_SIZE && |Encode(Login(a, p))| <= MESSAGE_BUFFER_SIZE
    ensures |Encode(Register(b, q))| <= MESSAGE_BUFFER_SIZE && |Encode(Login(b, q))| <= MESSAGE_BUFFER_SIZE
    ensures var events := TwoLogins(a, p, b, q);
            var before := Run(Initial(hash), events[..4]);
            && NoSecondLogin(Initial(hash), events[..4]) && Inverse(before.book)
            && SecondLogin(before, events[4])
            && !Inverse(Run(Initial(hash), events).book)
  {
    hide Registrable, Encode, Delivered, Step, Run, NoSecondLogin, SecondLogin, Inverse, OneStranger;
    CredentialsFit(a, p);
    CredentialsFit(b, q);
    var s0, events := Initial(hash), TwoLogins(a, p, b, q);
    assert events[..1] + [events[1]] == events[..2] && events[..2] + [events[2]] == events[..3]
        && events[..3] + [events[3]] == events[..4] && events[..1] == [events[0]];
    var s1 := Step(s0, events[0]);
    var s2 := Step(s1, events[1]);
    var s3 := Step(s2, events[2]);
    OneAccepted(hash);
    TwoAccounts(s1, a, p, b, q);
    LogsInTwice(s3, a, p, b, q);
    NotALogin(s1, a, p);
    NotALogin(s2, b, q);
    hide MatchingPassword;
    RunsOn(s0, events[..1], s1, events[1]);
    RunsOn(s0, events[..2], s2, events[2]);
    RunsOn(s0, events[..3], s3, events[3]);
    assert events[..|events| - 1] == events[..4];
    EndsInverseThenNot(hash, events);
  }

  lemma MixedPassword(p: Text)
    requires |p| == 14 && 97 <= p[0] <= 122 && 65 <= p[5] <= 90 && 48 <= p[10] <= 57
    requires p[13] == 33 || p[13] == 64
    ensures ProperPassword(p)
  {
    assert p[0] in p && p[5] in p && p[10] in p && p[13] in p;
  }

  /** The two users of the repository's tests, as a concrete instance. */
  lemma AliceAndBrian()
    ensures Registrable(Ascii("alice_adams"), Ascii("aliceAdams123!"))
    ensures Registrable(Ascii("brian_baker"), Ascii("brianBaker234@"))
    ensures Ascii("alice_adams") != Ascii("brian_baker")
  {
    hide ProperPassword;
    MixedPassword(Ascii("aliceAdams123!"));
    MixedPassword(Ascii("brianBaker234@"));
    assert Ascii("alice_adams")[0] != Ascii("brian_baker")[0];
  }
}
