/** The server object: its event loop and handlers, which update sessions, accounts and one shared buffer. */
module Server {
  import opened Basics
  import opened Messages
  import opened Serialization
  import opened MessageObjects
  import opened Accounts
  import opened Sessions
  import opened Protocol

  class Server {
    const messageBuffer: array<byte>
    const sessions: SessionManager
    const accounts: AccountRegistry

    ghost predicate Valid() {
      messageBuffer.Length == MESSAGE_BUFFER_SIZE
    }

    ghost function Contents(): State
      requires Valid()
      reads messageBuffer, sessions, accounts
    {
      State(sessions.Contents(), accounts.Contents(), messageBuffer[..])
    }

    constructor (hash: Text -> Text)
      ensures Valid() && Contents() == Initial(hash)
      ensures fresh(messageBuffer) && fresh(sessions) && fresh(accounts)
    {
      messageBuffer := new byte[MESSAGE_BUFFER_SIZE](_ => 0);
      sessions := new SessionManager();
      accounts := new AccountRegistry(hash);
      new;
      assert messageBuffer[..] == Initial(hash).buffer;
    }

    /** One round of the event loop over the events that became ready. */
    method HandleEvents(events: seq<Event>) returns (any: bool)
      requires Valid()
      modifies messageBuffer, sessions, accounts
      ensures Contents() == Run(old(Contents()), events)
      ensures any <==> events != []
    {
      for i := 0 to |events|
        invariant Contents() == Run(old(Contents()), events[..i])
      {
        assert events[..i + 1][..i] == events[..i];
        HandleEvent(events[i]);
      }
      assert events[..|events|] == events;
      any := |events| > 0;
    }

    method HandleEvent(event: Event)
      requires Valid()
      modifies messageBuffer, sessions, accounts
      ensures Contents() == Step(old(Contents()), event)
    {
      match event {
        case Accepted(fd, keyEstablished) =>
          if fd != -1 {
            EstablishConnection(fd, keyEstablished);
          }
        case Received(fd, data, chatSent, replySent) =>
          var established := sessions.IsEstablished(fd);
          if established {
            var channel := sessions.GetChannel(fd);
            Receive(data);
            var response := HandleBufferedRequest(fd, chatSent);
            var sent := SendResponse(channel, response, replySent);
          }
        case HungUp(fd) =>
          var established := sessions.IsEstablished(fd);
          if established {
            CloseConnection(fd);
          }
      }
    }

    method EstablishConnection(fd: int, keyEstablished: bool)
      requires Valid()
      modifies sessions
      ensures Contents() == old(Contents()).(book := Created(old(Contents()).book, fd, keyEstablished).1)
    {
      var created := sessions.Create(fd, keyEstablished);
    }

    method CloseConnection(fd: int)
      requires Valid()
      modifies sessions
      ensures Contents() == old(Contents()).(book := Destroyed(old(Contents()).book, fd).1)
    {
      var destroyed := sessions.Destroy(fd);
    }

    /** `SecureChannel::Receive` of one whole buffer. */
    method Receive(data: Buffer)
      requires Valid()
      modifies messageBuffer
      ensures messageBuffer[..] == data
    {
      forall i | 0 <= i < messageBuffer.Length {
        messageBuffer[i] := data[i];
      }
    }

    method SendResponse(channel: int, response: Message, delivered: bool) returns (ok: bool)
      requires Valid() && channel in sessions.sessions
      requires response.Success? || response.Failure? || response.ReceiveChat?
      modifies messageBuffer, sessions
      ensures (ok, Contents()) == Protocol.SendResponse(old(Contents()), channel, response, delivered)
    {
      match response {
        case Success =>
          var message := new BareMessage(SUCCESS);
          ok := message.Serialize(messageBuffer);
        case Failure(what) =>
          var message := new TextMessage(FAILURE, what);
          ok := message.Serialize(messageBuffer);
        case ReceiveChat(from, content) =>
          var message := new PairMessage(RECEIVE_CHAT, from, content);
          ok := message.Serialize(messageBuffer);
      }
      ok := ok && delivered;
      if ok {
        sessions.Send(channel, messageBuffer[..]);
      }
    }

    method HandleBufferedRequest(fd: int, chatSent: bool) returns (response: Message)
      requires Valid() && fd in sessions.sessions
      modifies messageBuffer, sessions, accounts
      ensures (response, Contents()) == Protocol.HandleBufferedRequest(old(Contents()), fd, chatSent)
      ensures response.Success? || response.Failure?
    {
      var reader := new ByteReader(messageBuffer);
      var ok, id := reader.Read(1);
      response := Failure(TYPE_ID_UNREAD);
      if ok {
        if IsRequestId(id[0]) {
          response := HandleBufferedRequestAs(id[0], fd, chatSent);
        } else {
          response := Failure(TYPE_ID_UNRECOGNIZED);
        }
      }
    }

    method HandleBufferedRequestAs(id: byte, fd: int, chatSent: bool) returns (response: Message)
      requires Valid() && fd in sessions.sessions
      requires IsRequestId(id) && messageBuffer[0] == id
      modifies messageBuffer, sessions, accounts
      ensures (response, Contents()) == Protocol.HandleBufferedRequest(old(Contents()), fd, chatSent)
      ensures response.Success? || response.Failure?
    {
      var ok, request;
      if id == PING {
        var message := new BareMessage(PING);
        DeserializedMeaning(message.Value(), messageBuffer[..]);
        ok := message.Deserialize(messageBuffer);
        request := message.Value();
      } else {
        var message := new PairMessage(id, [], []);
        DeserializedMeaning(message.Value(), messageBuffer[..]);
        ok := message.Deserialize(messageBuffer);
        request := message.Value();
      }
      if ok {
        response := HandleRequest(fd, request, chatSent);
      } else {
        response := Failure(UNDESERIALIZABLE);
      }
    }

    method HandleRequest(fd: int, request: Message, chatSent: bool) returns (response: Message)
      requires Valid() && fd in sessions.sessions
      requires IsRequestId(request.TypeId())
      modifies messageBuffer, sessions, accounts
      ensures (response, Contents()) == Protocol.HandleRequest(old(Contents()), fd, request, chatSent)
      ensures response.Success? || response.Failure?
    {
      match request {
        case Ping =>
          response := Success;
        case Register(username, password) =>
          var error := accounts.Register(username, password);
          if error == 0 {
            response := Success;
          } else {
            var text := ErrorString(error);
            response := Failure(text);
          }
        case Login(username, password) =>
          var matches := accounts.Contains(username);
          if matches {
            matches := accounts.MatchesPassword(username, password);
          }
          if matches {
            var success := sessions.Authenticate(fd, username);
            response := if success then Success else Failure(LOGIN_TAKEN);
          } else {
            response := Failure(LOGIN_INCORRECT);
          }
        case SendChat(to, content) =>
          var authenticated := sessions.IsAuthenticated(fd);
          if authenticated {
            var established := sessions.IsUserEstablished(to);
            if established {
              var channel := sessions.GetUserChannel(to);
              var from := sessions.GetUsername(fd);
              var sent := SendResponse(channel, ReceiveChat(from, content), chatSent);
              response := if sent then Success else Failure(CHAT_FAILED);
            } else {
              response := Failure(NO_RECIPIENT);
            }
          } else {
            response := Failure(UNAUTHENTICATED);
          }
      }
    }
  }
}
