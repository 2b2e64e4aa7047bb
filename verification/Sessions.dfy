/** The session manager: the sessions by connection, and the connections by logged-in username. */
module Sessions {
  import opened Basics

  /** `sent` is everything put on the session's secure channel, a FIFO of whole buffers, in order. */
  datatype Session = Session(sent: seq<Buffer>, username: Text, authenticated: bool)

  datatype Book = Book(sessions: map<int, Session>, userToFd: map<Text, int>)
  {
    predicate UserEstablished(u: Text) {
      u in userToFd && userToFd[u] in sessions
    }

    predicate LoggedIn(fd: int) {
      fd in sessions && sessions[fd].authenticated
    }

    /** `fd` is a live session authenticated as `u`. */
    predicate Owns(fd: int, u: Text) {
      LoggedIn(fd) && sessions[fd].username == u
    }

    function Log(fd: int): seq<Buffer> {
      if fd in sessions then sessions[fd].sent else []
    }
  }

  /** The two maps agree: usernames to connections is the inverse of authenticated sessions to usernames. */
  ghost predicate Inverse(b: Book) {
    && (forall u :: u in b.userToFd ==> b.Owns(b.userToFd[u], u))
    && (forall fd :: b.LoggedIn(fd) ==>
          b.sessions[fd].username in b.userToFd && b.userToFd[b.sessions[fd].username] == fd)
  }

  // ---------- What the operations do ----------

  function Created(b: Book, fd: int, keyEstablished: bool): (bool, Book) {
    (keyEstablished,
     if keyEstablished then b.(sessions := Emplace(b.sessions, fd, Session([], [], false))) else b)
  }

  function Destroyed(b: Book, fd: int): (bool, Book) {
    if b.LoggedIn(fd) then
      (true, Book(b.sessions - {fd}, b.userToFd - {b.sessions[fd].username}))
    else
      (false, b)
  }

  function Authenticated(b: Book, fd: int, u: Text): (bool, Book) {
    if fd in b.sessions && !b.UserEstablished(u) then
      (true, Book(b.sessions[fd := b.sessions[fd].(username := u, authenticated := true)],
                  Emplace(b.userToFd, u, fd)))
    else
      (false, b)
  }

  function Sent(b: Book, fd: int, buffer: Buffer): Book
    requires fd in b.sessions
  {
    b.(sessions := b.sessions[fd := b.sessions[fd].(sent := b.sessions[fd].sent + [buffer])])
  }

  // ---------- What they keep ----------

  lemma CreatedKeepsInverse(b: Book, fd: int, keyEstablished: bool)
    requires Inverse(b)
    ensures Inverse(Created(b, fd, keyEstablished).1)
  {
    var b' := Created(b, fd, keyEstablished).1;
    forall u | u in b'.userToFd
      ensures b'.Owns(b'.userToFd[u], u)
    {
      assert b.Owns(b.userToFd[u], u);
    }
    forall x | b'.LoggedIn(x)
      ensures b'.sessions[x].username in b'.userToFd && b'.userToFd[b'.sessions[x].username] == x
    {
      assert b.LoggedIn(x);
    }
  }

  lemma DestroyedKeepsInverse(b: Book, fd: int)
    requires Inverse(b)
    ensures Inverse(Destroyed(b, fd).1)
  {
    var b' := Destroyed(b, fd).1;
    if b.LoggedIn(fd) {
      forall u | u in b'.userToFd
        ensures b'.Owns(b'.userToFd[u], u)
      {
        assert b.Owns(b.userToFd[u], u);
      }
      forall x | b'.LoggedIn(x)
        ensures b'.sessions[x].username in b'.userToFd && b'.userToFd[b'.sessions[x].username] == x
      {
        assert b.LoggedIn(x);
      }
    }
  }

  /**
   Authenticating keeps the maps inverse exactly when it fails or the connection was not yet logged in:
   a connection that logs in again, under another name, leaves its first name's entry behind.
   */
  lemma AuthenticatedKeepsInverseIff(b: Book, fd: int, u: Text)
    requires Inverse(b)
    ensures var (success, b') := Authenticated(b, fd, u);
            Inverse(b') <==> !(success && b.LoggedIn(fd))
  {
    var (success, b') := Authenticated(b, fd, u);
    if success && b.LoggedIn(fd) {
      var v := b.sessions[fd].username;
      assert b.UserEstablished(v);
      assert b'.userToFd[v] == fd && !b'.Owns(fd, v);
    } else if success {
      assert u in b.userToFd ==> b.Owns(b.userToFd[u], u) && b.UserEstablished(u);
      forall w | w in b'.userToFd
        ensures b'.Owns(b'.userToFd[w], w)
      {
        assert w != u ==> b.Owns(b.userToFd[w], w);
      }
      forall x | b'.LoggedIn(x)
        ensures b'.sessions[x].username in b'.userToFd && b'.userToFd[b'.sessions[x].username] == x
      {
        assert x != fd ==> b.LoggedIn(x);
      }
    }
  }

  /** Where the maps agree, a username is established exactly when a live session is logged in under it. */
  lemma EstablishedMeansOwned(b: Book, u: Text)
    requires Inverse(b)
    ensures b.UserEstablished(u) <==> exists fd :: b.Owns(fd, u)
    ensures b.UserEstablished(u) ==> forall fd :: b.Owns(fd, u) <==> fd == b.userToFd[u]
  {
    if b.UserEstablished(u) {
      assert b.Owns(b.userToFd[u], u);
    }
    if fd :| b.Owns(fd, u) {
      assert b.LoggedIn(fd);
    }
  }

  /** A connection that is opened, logs in and is closed leaves no trace in either map. */
  lemma LoginThenCloseRestores(b: Book, fd: int, u: Text)
    requires Inverse(b) && fd !in b.sessions && !b.UserEstablished(u)
    ensures
      var (created, b1) := Created(b, fd, true);
      var (loggedIn, b2) := Authenticated(b1, fd, u);
      var (destroyed, b3) := Destroyed(b2, fd);
      created && loggedIn && destroyed && b3 == b
  {
    assert u in b.userToFd ==> b.Owns(b.userToFd[u], u);
    var b2 := Authenticated(Created(b, fd, true).1, fd, u).1;
    var b3 := Destroyed(b2, fd).1;
    assert b2.userToFd == b.userToFd[u := fd] && b3.userToFd == b.userToFd;
    assert b3.sessions.Keys == b.sessions.Keys && b3.sessions == b.sessions;
  }

  /** A connection that never logs in keeps its session when it is closed, and a second opening finds it there. */
  lemma CloseKeepsUnauthenticated(b: Book, fd: int, keyEstablished: bool)
    requires fd in b.sessions && !b.LoggedIn(fd)
    ensures var (destroyed, b') := Destroyed(b, fd);
            !destroyed && b' == b && Created(b', fd, keyEstablished).1 == b
  {
  }

  /**
   A concrete run in which connection 3 logs in twice, first under `a` and then under `b`, and leaves.
   The entry for `a` survives, so a login under `a` on connection 4 succeeds without replacing it, and
   once connection 3 is taken anew, `a` is established there although connection 4 is logged in as `a`.
   */
  lemma SecondLoginMisroutes(a: Text, b: Text)
    requires a != b
    ensures
      var b0 := Book(map[3 := Session([], [], false), 4 := Session([], [], false)], map[]);
      var (ok1, b1) := Authenticated(b0, 3, a);
      var (ok2, b2) := Authenticated(b1, 3, b);
      var (ok3, b3) := Destroyed(b2, 3);
      var (ok4, b4) := Authenticated(b3, 4, a);
      var (ok5, b5) := Created(b4, 3, true);
      && Inverse(b1) && ok1 && ok2 && ok3 && ok4 && ok5
      && !Inverse(b2) && !Inverse(b5)
      && b5.Owns(4, a) && b5.UserEstablished(a) && b5.userToFd[a] == 3 && !b5.LoggedIn(3)
  {
    var b0 := Book(map[3 := Session([], [], false), 4 := Session([], [], false)], map[]);
    var b1 := Authenticated(b0, 3, a).1;
    var b2 := Authenticated(b1, 3, b).1;
    var b4 := Authenticated(Destroyed(b2, 3).1, 4, a).1;
    var b5 := Created(b4, 3, true).1;
    assert !b2.Owns(b2.userToFd[a], a);
    assert !b5.Owns(b5.userToFd[a], a);
  }

  // ---------- The session manager ----------

  /**
   A reference to a channel stays valid as long as its session is in the map, so it is modelled as the
   session's key, and using it asks that the key is still there. Each `.at` lookup asks the same.
   */
  class SessionManager {
    var sessions: map<int, Session>
    var userToFd: map<Text, int>

    constructor ()
      ensures Contents() == Book(map[], map[])
    {
      sessions, userToFd := map[], map[];
    }

    function Contents(): Book
      reads this
    {
      Book(sessions, userToFd)
    }

    method Create(fd: int, keyEstablished: bool) returns (success: bool)
      modifies this
      ensures (success, Contents()) == Created(old(Contents()), fd, keyEstablished)
    {
      var session := Session([], [], false);
      success := keyEstablished;
      if success {
        sessions := Emplace(sessions, fd, session);
      }
    }

    method Destroy(fd: int) returns (success: bool)
      modifies this
      ensures (success, Contents()) == Destroyed(old(Contents()), fd)
    {
      success := false;
      var established := IsEstablished(fd);
      if established {
        var authenticated := IsAuthenticated(fd);
        if authenticated {
          var username := GetUsername(fd);
          userToFd := userToFd - {username};
          sessions := sessions - {fd};
          success := true;
        }
      }
    }

    method IsEstablished(fd: int) returns (r: bool)
      ensures r <==> fd in sessions
    {
      r := fd in sessions;
    }

    method IsUserEstablished(username: Text) returns (r: bool)
      ensures r <==> Contents().UserEstablished(username)
    {
      r := username in userToFd;
      if r {
        r := IsEstablished(userToFd[username]);
      }
    }

    method GetChannel(fd: int) returns (channel: int)
      requires fd in sessions
      ensures channel == fd
    {
      channel := fd;
    }

    method GetUserChannel(username: Text) returns (channel: int)
      requires username in userToFd && userToFd[username] in sessions
      ensures channel == userToFd[username]
    {
      channel := userToFd[username];
    }

    method GetUsername(fd: int) returns (username: Text)
      requires fd in sessions
      ensures username == sessions[fd].username
    {
      username := sessions[fd].username;
    }

    method IsAuthenticated(fd: int) returns (r: bool)
      requires fd in sessions
      ensures r == sessions[fd].authenticated
    {
      r := sessions[fd].authenticated;
    }

    method Authenticate(fd: int, username: Text) returns (success: bool)
      modifies this
      ensures (success, Contents()) == Authenticated(old(Contents()), fd, username)
    {
      success := false;
      var connected := IsEstablished(fd);
      var taken := IsUserEstablished(username);
      if connected && !taken {
        userToFd := Emplace(userToFd, username, fd);
        sessions := sessions[fd := sessions[fd].(username := username, authenticated := true)];
        success := true;
      }
    }

    /** `SecureChannel::Send` on a channel reference. */
    method Send(channel: int, buffer: Buffer)
      requires channel in sessions
      modifies this
      ensures Contents() == Sent(old(Contents()), channel, buffer)
    {
      var session := sessions[channel];
      sessions := sessions[channel := session.(sent := session.sent + [buffer])];
    }
  }
}
