/** What one event changes, field by field, and what the state of a run says about the events that led to it. */
module ServerHistory {
  import opened Basics
  import opened Messages
  import opened Accounts
  import opened Sessions
  import opened Protocol
  import opened ServerTraffic
  import opened ServerRuns

  // ---------- One event ----------

  /**
   A session appears exactly when a connection is accepted and agrees on a key, and disappears exactly
   when it hangs up logged in. Every other such event, and every event of a stranger, changes nothing.
   */
  lemma SessionsAfter(s: State, e: Event)
    ensures forall x :: x in Step(s, e).book.sessions
                   <==> (x in s.book.sessions && !(e == HungUp(x) && s.book.sessions[x].authenticated))
                        || (e == Accepted(x, true) && x != -1)
    ensures forall x :: x in Step(s, e).book.sessions && x !in s.book.sessions
                   ==> Step(s, e).book.sessions[x] == Session([], [], false)
    ensures e.Accepted? && (!e.keyEstablished || e.fd == -1 || e.fd in s.book.sessions) ==> Step(s, e) == s
    ensures e.Received? && e.fd !in s.book.sessions ==> Step(s, e) == s
    ensures e.HungUp? && !(e.fd in s.book.sessions && s.book.sessions[e.fd].authenticated) ==> Step(s, e) == s
  {
    hide Handled, SendResponse;
  }

  /** The event logs the connection `x` in as `u`: the password is right and the name is not in use. */
  predicate LogsInAs(s: State, e: Event, x: int, u: Text) {
    && e.Received? && e.fd == x && x in s.book.sessions
    && (u in s.book.userToFd ==> s.book.userToFd[u] !in s.book.sessions)
    && match Request(e.data)
       case Some(Login(v, p)) => v == u && u in s.registry.accounts && s.registry.accounts[u] == s.registry.hash(p)
       case _ => false
  }

  /** What a received buffer makes of the logins, in terms of who logs in by it. */
  lemma LoginsAfterReceived(s: State, e: Event)
    requires e.Received? && e.fd in s.book.sessions
    ensures forall u :: LogsInAs(s, e, e.fd, u) ==> LoginsAfter(s, e.fd, e.data) == Authenticated(s.book, e.fd, u).1
    ensures (forall u :: !LogsInAs(s, e, e.fd, u)) ==> LoginsAfter(s, e.fd, e.data) == s.book
  {
    hide Request;
    match Request(e.data)
    case Some(Login(u, p)) =>
      assert !LogsInAs(s, e, e.fd, u) ==> LoginsAfter(s, e.fd, e.data) == s.book;
    case _ =>
  }

  /** A session changes its name exactly by a login on its own connection. */
  lemma NamesAfter(s: State, e: Event, x: int)
    requires x in s.book.sessions && x in Step(s, e).book.sessions
    ensures forall u :: LogsInAs(s, e, x, u) ==> Step(s, e).book.Owns(x, u)
    ensures (forall u :: !LogsInAs(s, e, x, u)) ==>
              && Step(s, e).book.sessions[x].username == s.book.sessions[x].username
              && Step(s, e).book.sessions[x].authenticated == s.book.sessions[x].authenticated
  {
    if e.Received? && e.fd in s.book.sessions {
      hide Step, Request, LoginsAfter, RegistryAfter;
      StepLogins(s, e);
      LoginsAfterReceived(s, e);
      if u :| LogsInAs(s, e, e.fd, u) {
        assert forall v :: LogsInAs(s, e, e.fd, v) ==> v == u;
      }
    } else {
      hide Handled, SendResponse;
    }
  }

  /** A name gets an entry exactly by a login, and loses it exactly when the connection logged in under it hangs up. */
  lemma EntriesAfter(s: State, e: Event, u: Text)
    ensures u in Step(s, e).book.userToFd
       <==> (u in s.book.userToFd && !(e.HungUp? && s.book.Owns(e.fd, u)))
            || (e.Received? && LogsInAs(s, e, e.fd, u))
    ensures u in Step(s, e).book.userToFd
        ==> Step(s, e).book.userToFd[u] == if u in s.book.userToFd then s.book.userToFd[u] else e.fd
  {
    if e.Received? && e.fd in s.book.sessions {
      hide Step, Request, LoginsAfter, RegistryAfter;
      StepLogins(s, e);
      LoginsAfterReceived(s, e);
      if v :| LogsInAs(s, e, e.fd, v) {
        assert LogsInAs(s, e, e.fd, u) <==> u == v;
      }
    } else {
      hide Handled, SendResponse;
    }
  }

  /** The event registers `u` with `p`. */
  predicate RegistersAs(s: State, e: Event, u: Text, p: Text) {
    && e.Received? && e.fd in s.book.sessions && Request(e.data) == Some(Register(u, p))
    && u !in s.registry.accounts && ProperUsername(u) && ProperPassword(p)
  }

  /** An account is added exactly by such a registration, and no other ever changes. */
  lemma AccountsAfter(s: State, e: Event)
    ensures forall u, p :: RegistersAs(s, e, u, p)
                       ==> Step(s, e).registry == s.registry.(accounts := s.registry.accounts[u := s.registry.hash(p)])
    ensures (forall u, p :: !RegistersAs(s, e, u, p)) ==> Step(s, e).registry == s.registry
  {
    if e.Received? && e.fd in s.book.sessions {
      StepLogins(s, e);
      hide Step, Request, ProperUsername, ProperPassword, Registered;
      match Request(e.data)
      case Some(Register(u, p)) =>
        RegisteredMeaning(s.registry, u, p);
        assert !RegistersAs(s, e, u, p) ==> RegistryAfter(s.registry, e.data) == s.registry;
      case _ =>
    }
  }

  // ---------- Every run ----------

  /** The connection was accepted and agreed on a key. */
  ghost predicate WasAccepted(events: seq<Event>, x: int) {
    exists i :: 0 <= i < |events| && events[i] == Accepted(x, true)
  }

  /** The name and a password with this hash were received in a registration, and both met the policy. */
  ghost predicate WasRegistered(events: seq<Event>, u: Text, digest: Text, hash: Text -> Text) {
    exists i, p :: 0 <= i < |events| && IsRegistration(events[i], u, p)
                   && ProperUsername(u) && ProperPassword(p) && hash(p) == digest
  }

  predicate IsRegistration(e: Event, u: Text, p: Text) {
    e.Received? && Request(e.data) == Some(Register(u, p))
  }

  /** The name and a password with this hash were received in a login on this very connection. */
  ghost predicate PresentedPassword(events: seq<Event>, x: int, u: Text, digest: Text, hash: Text -> Text) {
    exists i, p :: 0 <= i < |events| && IsLogin(events[i], x, u, p) && hash(p) == digest
  }

  /** Nothing in the state came from nowhere. */
  ghost predicate Explained(events: seq<Event>, s: State) {
    && (forall x :: x in s.book.sessions ==> WasAccepted(events, x))
    && (forall u :: u in s.registry.accounts
                ==> WasRegistered(events, u, s.registry.accounts[u], s.registry.hash))
    && (forall x, u :: s.book.Owns(x, u)
                   ==> u in s.registry.accounts
                       && PresentedPassword(events, x, u, s.registry.accounts[u], s.registry.hash))
  }

  /** More events explain no less. */
  lemma MoreEvents(front: seq<Event>, e: Event, s: State)
    requires Explained(front, s)
    ensures Explained(front + [e], s)
  {
    hide ProperUsername, ProperPassword, Request, IsLogin, IsRegistration;
    var all := front + [e];
    assert forall i :: 0 <= i < |front| ==> all[i] == front[i];
    forall x | x in s.book.sessions
      ensures WasAccepted(all, x)
    {
      var i :| 0 <= i < |front| && front[i] == Accepted(x, true);
      assert all[i] == Accepted(x, true);
    }
    forall u | u in s.registry.accounts
      ensures WasRegistered(all, u, s.registry.accounts[u], s.registry.hash)
    {
      var i, p :| 0 <= i < |front| && IsRegistration(front[i], u, p)
                  && ProperUsername(u) && ProperPassword(p) && s.registry.hash(p) == s.registry.accounts[u];
      assert IsRegistration(all[i], u, p);
    }
    forall x, u | s.book.Owns(x, u)
      ensures PresentedPassword(all, x, u, s.registry.accounts[u], s.registry.hash)
    {
      var i, p :| 0 <= i < |front| && IsLogin(front[i], x, u, p) && s.registry.hash(p) == s.registry.accounts[u];
      assert IsLogin(all[i], x, u, p);
    }
  }

  lemma StepExplained(front: seq<Event>, e: Event, s: State)
    requires Explained(front, s)
    ensures Explained(front + [e], Step(s, e))
  {
    var all, s' := front + [e], Step(s, e);
    MoreEvents(front, e, s);
    assert all[|front|] == e;
    SessionsAfter(s, e);
    AccountsAfter(s, e);
    StepKeepsAccounts(s, e);
    hide Step, Request, ProperUsername, ProperPassword;
    forall u | u in s'.registry.accounts
      ensures WasRegistered(all, u, s'.registry.accounts[u], s'.registry.hash)
    {
      if u !in s.registry.accounts {
        var v, p :| RegistersAs(s, e, v, p);
        assert u == v && IsRegistration(all[|front|], u, p);
      }
    }
    forall x, u | s'.book.Owns(x, u)
      ensures u in s'.registry.accounts
      ensures PresentedPassword(all, x, u, s'.registry.accounts[u], s'.registry.hash)
    {
      if x in s.book.sessions {
        NamesAfter(s, e, x);
        if v :| LogsInAs(s, e, x, v) {
          assert u == v && IsLogin(all[|front|], x, u, Request(e.data).value.password);
        } else {
          assert s.book.Owns(x, u);
        }
      }
    }
  }

  /**
   In every run from the start: every session's connection was accepted and agreed on a key; every
   account was registered under a proper name with a proper password; and whoever is logged in has
   sent, on that connection, a login with a password of the account.
   */
  lemma {:induction false} RunIsExplained(hash: Text -> Text, events: seq<Event>)
    ensures Explained(events, Run(Initial(hash), events))
  {
    if events != [] {
      var front, e := events[..|events| - 1], events[|events| - 1];
      RunIsExplained(hash, front);
      StepExplained(front, e, Run(Initial(hash), front));
      assert events == front + [e];
      hide Step, Explained;
    }
  }
}
