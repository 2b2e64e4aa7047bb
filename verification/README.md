# Verification of the secure messaging system

This project models a chat system in Dafny and proves what it is for: messages survive the wire, the
server keeps accounts and logins straight and routes chats to the right connection, a client gets the
reply to its own request however many chats come first, and the thread pool neither loses nor repeats
work and always shuts down. `dafny verify dfyconfig.toml` checks everything.

## How the model is laid out

| file | contents |
|---|---|
| `Basics.dfy`, `Bits.dfy`, `Splitting.dfy` | bytes and 64-bit words, bit masks, splitting and joining at a separator |
| `Messages.dfy` | the twelve messages; a pure encoding and decoding, proved inverse to each other |
| `Serialization.dfy` | the byte reader and writer with their cursor, and what serializers make of a buffer or an object in every case |
| `MessageObjects.dfy` | the message objects, whose `Serialize` and `Deserialize` refine that |
| `Accounts.dfy` | the account registry, its rules, the error mask and the error text |
| `Sessions.dfy` | the session manager with its two maps |
| `Protocol.dfy`, `Server.dfy` | one event as a pure step; the server object that refines it |
| `ServerTraffic.dfy`, `Responses.dfy` | what one event puts on which connection; what the server answers to each buffer |
| `ServerRuns.dfy`, `ServerHistory.dfy` | what holds in every run; what one event changes, and what a state says about the events before it |
| `Reception.dfy`, `Client.dfy` | sorting received buffers into replies and chats; the client object |
| `CommandLine.dfy`, `EndToEnd.dfy` | splitting a typed line, building the request, and what the server then sees |
| `Exchange.dfy` | one server and any number of clients, interleaved |
| `ThreadPool.dfy` | the thread pool, as interleaved steps |

Objects that the program updates in place are classes here, and each of their methods is proved equal to
a step of a pure specification; the theorems are about that specification and about runs of it. The
thread pool is modelled as a state machine from the start, because its correctness is about how steps of
different threads interleave.

Assumptions. A secure channel is a FIFO of whole message buffers of 65536 bytes that arrive unchanged;
whether agreeing on a key succeeds, and whether a channel carries a given chat or reply, are inputs of
the events. In `Exchange.dfy` every channel carries everything. Passwords are hashed by an arbitrary
function. A `uint64_t` is copied into a buffer least significant byte first. A reference to a channel
stays valid as long as its session is in the map, so it is modelled by the session's key, and every use
of it, like every `.at` lookup, carries the obligation that the key is present.

The session manager does not ask whether a connection is already logged in before it logs it in under
another name. The two maps are therefore not inverse in every run; they are proved to be so exactly in
the runs without a second login (`RunKeepsInverseIff`): a correct login, under a name that is not in use,
on a connection that is already logged in. `SecondLoginFromStart` gives runs of the server outside that
condition, from its start and from the bytes received, and `SecondLoginMisroutes` shows what the two maps
then hold. Results that need the maps to agree say so; all others hold in every run.

`src/Client/Client.cpp` holds a stray copy of another file in lines 57 to 82; it is read as
`if (_channel.Receive(_message_buffer) > 0)`. The client tests the result of sending for being nonzero
and so takes -1 for success; the model does the same. The server compares with -1.

## Model

| member | source | states |
|---|---|---|
| Basics.Word64RoundTrip | src/Shared/Messages.cpp:28-36 | a 64-bit length copied into a buffer and back is unchanged, in both directions |
| Basics.Word64Bytes | src/Shared/Messages.cpp:28-36 | byte i of the eight is the length divided by 256 to the i, modulo 256 |
| Messages.DecodeIffEncoded | src/Shared/Messages.cpp:5-325 | deserializing bytes as a type yields a message after reading k bytes if and only if the message has that type and its encoding is the first k bytes |
| Messages.RoundTrip | src/Shared/Messages.cpp:5-325 | an encoding followed by any stale bytes is read back by its own type, and rejected by each of the eleven others |
| Messages.PrefixFree | src/Shared/Messages.h:9-146 | no message's encoding is a prefix of a different message's |
| Messages.DecodeDependsOnPrefix | src/Shared/Messages.cpp:12-19 | what is decoded depends on the encoded prefix alone |
| Messages.EncodedSize | src/Shared/Messages.cpp:25-37 | the size of every encoding in terms of the lengths of its strings |
| Messages.EncodedBytes | src/Shared/Messages.cpp:5-325 | the bytes of each message: its type id as a number, then each field in order behind its length |
| Messages.StringListBytes | src/Shared/Messages.cpp:285-302 | where in the encoding of a list the length and the bytes of its i-th string are |
| Messages.DecodeTextsSound | src/Shared/Messages.cpp:304-325 | strings read from a position are what encodes to the bytes passed over |
| Messages.DecodeTextsComplete | src/Shared/Messages.cpp:304-325 | the encodings of any list of strings are read back as that list |
| Serialization.ByteReader.Peek | src/Network/Serialization.cpp:8-16 | succeeds exactly if enough bytes are left, copies exactly those, moves nothing; the unsigned remainder does not wrap |
| Serialization.ByteReader.Read | src/Network/Serialization.cpp:17-25 | the same, and moves the cursor exactly on success |
| Serialization.ByteWriter.Write | src/Network/Serialization.cpp:30-41 | succeeds exactly if the value fits behind the cursor, overwrites exactly that stretch, and keeps the cursor within the buffer |
| Serialization.SerializedMeaning | src/Shared/Messages.cpp:25-37 | serializing succeeds exactly if the encoding fits; it leaves the encoding, or on failure a prefix of it, and nothing at or behind the final cursor changes |
| Serialization.PutMeaning | src/Network/Serialization.cpp:30-41 | the same for any sequence of writes from any cursor |
| Serialization.DeserializedMeaning | src/Shared/Messages.cpp:38-51 | into any prior object, deserializing succeeds exactly on what decodes, with that value |
| Serialization.SerializeThenDeserialize | src/Shared/Messages.cpp:285-325 | if serializing succeeds, deserializing that buffer into any prior object yields the same message |
| Serialization.DeserializeThenSerialize | src/Shared/Messages.cpp:285-325 | if deserializing arbitrary bytes succeeds, serializing the result over any buffer of that size reproduces exactly the bytes consumed |
| MessageObjects.BareMessage.Serialize | src/Shared/Messages.cpp:5-11 | result and buffer are those of the specification, on success and on failure |
| MessageObjects.BareMessage.Deserialize | src/Shared/Messages.cpp:12-19 | result is that of the specification |
| MessageObjects.TextMessage.Serialize | src/Shared/Messages.cpp:259-268 | result and buffer are those of the specification |
| MessageObjects.TextMessage.Deserialize | src/Shared/Messages.cpp:269-279 | result and the object's field are those of the specification, on failure too |
| MessageObjects.PairMessage.Serialize | src/Shared/Messages.cpp:175-187 | result and buffer are those of the specification |
| MessageObjects.PairMessage.Deserialize | src/Shared/Messages.cpp:188-201 | result and the object's fields are those of the specification, on failure too |
| MessageObjects.StringListMessage.Serialize | src/Shared/Messages.cpp:285-303 | the loop writes what the specification says, also when it stops early |
| MessageObjects.StringListMessage.Deserialize | src/Shared/Messages.cpp:304-325 | the loop fills the resized list as the specification says, also when it stops early |
| MessageObjects.ReadText | src/Shared/Messages.cpp:147-148 | reads a length, resizes the string to it and fills it, or leaves what a failed read leaves |
| Splitting.SplitThenJoin | src/Client/ClientCLI.cpp:78-94 | the parts of a split hold no separator, and joined they are the text |
| Splitting.JoinThenSplit | src/Client/ClientCLI.cpp:66-67 | splitting undoes joining any nonempty list of parts free of the separator |
| Accounts.ErrorsMeaning | src/Server/AccountRegistry.cpp:11-51 | the error mask has exactly the bits of the rules broken, and is zero exactly if none is |
| Accounts.ErrorsUnique | src/Server/AccountRegistry.h:19-33 | the error mask is determined by the rules broken |
| Accounts.AccountRegistry.ValidateUsername | src/Server/AccountRegistry.cpp:11-28 | the mask computed step by step has exactly the bits of the username rules broken; a taken name breaks only that rule |
| Accounts.AccountRegistry.ValidatePassword | src/Server/AccountRegistry.cpp:30-51 | the mask computed step by step has exactly the bits of the password rules broken |
| Accounts.AccountRegistry.Register | src/Server/AccountRegistry.cpp:92-107 | result and accounts are those of the specification |
| Accounts.RegisteredMeaning | src/Server/AccountRegistry.cpp:92-107 | returns zero exactly if the name is new and of 8 to 32 letters, digits and underscores and the password has 12 characters or more of all four kinds; then adds that one account under the hash of the password, and otherwise changes nothing |
| Accounts.RegisteredMask | src/Server/AccountRegistry.cpp:11-51 | the mask returned is the sum of the enumerators of what is wrong with the name and the password, each condition given in numbers |
| Accounts.AccountRegistry.Contains | src/Server/AccountRegistry.cpp:109-112 | whether the name is registered |
| Accounts.AccountRegistry.MatchesPassword | src/Server/AccountRegistry.cpp:114-119 | whether the name is registered under the hash of the password |
| Accounts.ErrorString | src/Server/AccountRegistry.cpp:121-148 | the text built step by step, its last newline removed, is the text of the specification |
| Accounts.ErrorTextLines | src/Server/AccountRegistry.cpp:121-148 | the lines of the text are exactly those of the rules whose bit is set |
| Accounts.RefusalLines | src/Server/AccountRegistry.cpp:121-148 | the lines of a refusal are those of what is wrong with the name and the password, each once, in the order of the enumerators |
| Accounts.ErrorTextThenMask | src/Server/AccountRegistry.cpp:121-148 | every mask of rules can be recovered from its text |
| Accounts.ErrorTextBound | src/Server/AccountRegistry.cpp:121-148 | no error text is longer than 360 bytes |
| Bits.OrBits | src/Server/AccountRegistry.cpp:96 | combining masks sets exactly the bits set in either |
| Sessions.SessionManager.Create | src/Server/SessionManager.cpp:3-12 | adds a nameless session if the key agreement succeeded and the connection has none |
| Sessions.SessionManager.Destroy | src/Server/SessionManager.cpp:13-24 | removes an authenticated session and the entry of its name; keeps an unauthenticated one |
| Sessions.SessionManager.IsEstablished | src/Server/SessionManager.cpp:26-29 | whether the connection has a session |
| Sessions.SessionManager.IsUserEstablished | src/Server/SessionManager.cpp:30-33 | whether the name has an entry that points to a session |
| Sessions.SessionManager.GetUserChannel | src/Server/SessionManager.cpp:39-42 | the channel of the entry; both lookups have their key |
| Sessions.SessionManager.Authenticate | src/Server/SessionManager.cpp:52-68 | result and both maps are those of the specification, an existing entry being left alone |
| Sessions.CreatedKeepsInverse | src/Server/SessionManager.cpp:3-12 | creating a session keeps the two maps inverse |
| Sessions.DestroyedKeepsInverse | src/Server/SessionManager.cpp:13-24 | destroying a session keeps the two maps inverse |
| Sessions.AuthenticatedKeepsInverseIff | src/Server/SessionManager.cpp:52-68 | authenticating keeps the maps inverse exactly if it fails or the connection was not logged in yet |
| Sessions.LoginThenCloseRestores | src/Server/SessionManager.cpp:13-24 | opening a connection, logging in and closing it restores both maps |
| Sessions.CloseKeepsUnauthenticated | src/Server/SessionManager.cpp:13-24 | closing an unauthenticated connection keeps its session, and opening it again changes nothing |
| Sessions.SecondLoginMisroutes | src/Server/SessionManager.cpp:52-68 | a concrete run with a second login after which a name's entry points to a connection that is not logged in under it |
| Sessions.EstablishedMeansOwned | src/Server/SessionManager.cpp:30-33 | where the maps agree, a name is established exactly if a live session is logged in under it, and the entry is that session |
| Protocol.RequestMeaning | src/Server/Server.cpp:121-151 | the dispatch on the type id finds a request exactly if the buffer starts with the encoding of one of the four it handles |
| Protocol.HandleRequest | src/Server/Server.cpp:157-203 | handling a request never adds or removes a session, so channel references stay valid |
| Server.Server.HandleEvents | src/Server/Server.cpp:37-86 | the loop over the ready events leaves the state that running them one by one specifies |
| Server.Server.HandleEvent | src/Server/Server.cpp:47-82 | one event leaves the specified sessions, accounts, channels and message buffer; every lookup finds its key |
| Server.Server.SendResponse | src/Server/Server.cpp:112-119 | serializes over the message buffer and sends the whole buffer exactly if that succeeded |
| Server.Server.HandleBufferedRequest | src/Server/Server.cpp:121-139 | response and state are those of the specification |
| Server.Server.HandleBufferedRequestAs | src/Server/Server.cpp:141-151 | response and state are those of the specification |
| Server.Server.HandleRequest | src/Server/Server.cpp:157-203 | response and state are those of the specification, for each of the four requests |
| ServerTraffic.SendResponseMeaning | src/Server/Server.cpp:112-119 | sending succeeds exactly if the encoding fits and the channel carries it; one connection gains that one message and nothing else changes |
| ServerTraffic.ResponseFits | src/Server/Server.cpp:157-203 | every response the server builds is a Success or a Failure and fits the message buffer |
| ServerTraffic.HandledTraffic | src/Server/Server.cpp:190-203 | handling puts at most the relayed chat on a channel, and a chat request is answered with success exactly if it was relayed |
| ServerTraffic.StepTraffic | src/Server/Server.cpp:61-78 | one received buffer gives its connection exactly one reply and a recipient at most that chat; nothing else is put on any connection |
| Responses.MalformedAnswered | src/Server/Server.cpp:121-151 | the answer to an unknown type id, and to a known one behind which no message is encoded |
| Responses.PingAnswered | src/Server/Server.cpp:157-164 | a ping succeeds in every state |
| Responses.RegisterAnswered | src/Server/Server.cpp:166-176 | a registration succeeds exactly if name and password are proper and the name new; a refusal lists what is wrong, line by line |
| Responses.LoginAnswered | src/Server/Server.cpp:178-188 | the answer to a login in every state: wrong password first, then a name in use |
| Responses.ChatAnswered | src/Server/Server.cpp:190-203 | the answer to a chat request in every state |
| ServerRuns.StepLogins | src/Server/Server.cpp:157-188 | a received buffer changes logins only by a correct login and accounts only by a registration |
| ServerRuns.RunKeepsAccounts | src/Server/AccountRegistry.cpp:92-107 | in every run the accounts only grow and no stored hash changes |
| ServerRuns.MatchingIsStable | src/Server/AccountRegistry.cpp:114-119 | once a name is registered, whether a password matches never changes |
| ServerRuns.FirstPasswordForever | src/Server/Server.cpp:166-176 | registration succeeds exactly if the name is new and name and password are proper, and its password is the name's password in the rest of every run |
| ServerRuns.RunKeepsSound | src/Server/Server.cpp:178-188 | in every run registered names are proper, names with an entry and names of authenticated sessions are registered, other sessions have no name, and channels carry only replies and chats |
| ServerRuns.RelayBounds | src/Server/Server.cpp:190-203 | in every run relaying changes the encoded size of a chat by at most 24 bytes, and content of up to 65487 bytes fits the message buffer |
| ServerHistory.SessionsAfter | src/Server/Server.cpp:47-110 | a session appears exactly when a connection is accepted and its key agreement succeeds, nameless and with nothing sent, and disappears exactly when it hangs up logged in; a failed key agreement and events of strangers change nothing |
| ServerHistory.NamesAfter | src/Server/SessionManager.cpp:52-68 | a session's name changes exactly by a correct login, under a name not in use, on its own connection |
| ServerHistory.EntriesAfter | src/Server/SessionManager.cpp:13-68 | a name gets an entry exactly by such a login, loses it exactly when the connection logged in under it hangs up, and keeps an entry it already has |
| ServerHistory.AccountsAfter | src/Server/AccountRegistry.cpp:92-107 | an account is added exactly by a registration of a new proper name with a proper password, under the hash of it, and no other account changes |
| ServerHistory.RunIsExplained | src/Server/Server.cpp:47-203 | in every run, every session's connection was accepted with its key established, every account was registered with a proper name and password, and whoever is logged in has sent the account's password on that connection |
| ServerRuns.SecondLoginSucceeds | src/Server/Server.cpp:178-188 | on a connection already logged in, a login is answered with success exactly if the password matches and the name is not established |
| ServerRuns.StepKeepsInverseIff | src/Server/SessionManager.cpp:3-68 | an event keeps the two maps inverse exactly if it is not a second login |
| ServerRuns.RunKeepsInverseIff | src/Server/SessionManager.cpp:3-68 | the maps are inverse throughout a run if and only if it contains no second login |
| ServerRuns.InverseFromStart | src/Server/SessionManager.h:18-19 | from the start, every run without second logins ends with inverse maps |
| ServerRuns.SecondLoginFromStart | src/Server/Server.cpp:178-188 | from the start: after any two valid registrations and both logins on one connection the maps are not inverse, and before the last login they were |
| ServerRuns.AliceAndBrian | src/Shared/TestUtils.hpp:51-53 | the users of the tests are such a pair of valid registrations |
| ServerRuns.LoginSucceedsIff | src/Server/Server.cpp:178-188 | where the maps agree, a login succeeds exactly if the password matches and no live session has the name; otherwise the response says which failed |
| ServerRuns.OneSessionPerUser | src/Server/SessionManager.cpp:52-68 | where the maps agree, no two live sessions share a name |
| ServerRuns.LoginAfterOwnerLeaves | tests/singlelogin.cpp:13-20 | in every run without second logins, a correct login is refused while the name is in use elsewhere, and succeeds as soon as that connection has closed |
| ServerRuns.ChatReachesRecipient | src/Server/Server.cpp:190-203 | in every run without second logins, a chat answered with success is put on exactly the connection logged in as the recipient, from the sender's own name and with the content unchanged, and no other connection gets a chat |
| ServerRuns.ChatSucceedsIff | src/Server/Server.cpp:190-203 | where the maps agree, the response to a chat request in every case |
| Reception.SortMeaning | src/Client/Client.cpp:84-103 | the client's dispatch finds a reply or a chat exactly if the buffer starts with the encoding of one |
| Client.Client.GetUnread | src/Client/Client.cpp:35-40 | returns the inbox and empties it |
| Client.Client.SendRequest | src/Client/Client.cpp:42-53 | outcome, inbox, channel and buffer are those of the specification, in each error case too |
| Client.Client.GetResponse | src/Client/Client.cpp:55-106 | terminates on every finite stream with the outcome, inbox and rest of the stream of the specification |
| Client.Client.DeserializeAs | src/Client/Client.cpp:108-118 | the message in the buffer if it decodes as the type, else an error |
| Client.DemuxConserves | src/Client/Client.cpp:55-106 | waiting for a reply takes a prefix of the stream, and the chats put into the inbox are exactly those in that prefix |
| Client.DemuxFindsFirstReply | src/Client/Client.cpp:87-102 | however many chats come first, the outcome is the first reply; without one it is the disconnect |
| Client.DemuxStopsAt | src/Client/Client.cpp:55-106 | on any stream the first buffer that is no chat decides the outcome, malformed ones included; the chats before it are collected and nothing behind it is taken |
| Client.RequestIsSent | src/Client/Client.cpp:42-53 | a request is sent as one buffer that starts with its encoding exactly if it fits and sending does not fail; which outcome each case has, and what is then in the inbox and still to come |
| Client.InboxConserved | src/Client/Client.cpp:35-106 | over any sequence of calls, what was returned as unread and the inbox are together the chats of the buffers received, in order |
| CommandLine.ParseCommandArguments | src/Client/ClientCLI.cpp:78-94 | the loop yields all parts between spaces, less an empty last one |
| CommandLine.ArgumentsJoinToLine | src/Client/ClientCLI.cpp:78-94 | arguments hold no space, and joined they are the line less one final space |
| CommandLine.JoinThenArguments | src/Client/ClientCLI.cpp:78-94 | splitting a join returns the arguments exactly if none holds a space and the last is not empty |
| CommandLine.CommandMeaning | src/Client/ClientCLI.cpp:51-94 | for every line: which request it builds, when it opens the inbox or quits, and that it fails to parse in exactly the other cases, the empty line included |
| CommandLine.BuildCommand | src/Client/ClientCLI.cpp:51-76 | the command is that of the specification for the arguments of the line |
| CommandLine.TypedRequest | src/Client/ClientCLI.cpp:51-76 | the line typed for a request builds exactly that request if and only if the request is typeable |
| CommandLine.TypedWord | src/Client/ClientCLI.cpp:70-73 | the words for the inbox and for quitting are recognised whatever follows them |
| EndToEnd.TypedRequestIsHandled | src/Client/ClientCLI.cpp:51-76 | the buffer sent for a typed request, whatever its stale content, is dispatched on the server as exactly that request |
| EndToEnd.TypedChatContent | src/Client/ClientCLI.cpp:63-69 | a typed chat loses exactly one final space, if its content ends in one |
| Exchange.InterleavedKeeps | src/Server/Server.cpp:61-78 | the invariant that ties requests, responses, channels and inboxes holds in every interleaving |
| Exchange.EveryReplyIsOwn | src/Client/Client.cpp:42-106 | in every interleaving the replies on a connection are the responses to the requests of its client's calls, one each and in order, each computed in the state in which the server began to serve it; the k-th completed call returned the response to the client's k-th request |
| Exchange.PendingReplyIsFound | src/Client/Client.cpp:55-106 | once a pending request has been handled, waiting returns the response to that request, however many chats come first |
| Exchange.CallIsAwaited | src/Client/Client.cpp:42-106 | in every interleaving, a call that has returned has the outcome, inbox, rest of the stream and last buffer that the client's code has on the buffers of its connection alone |
| Exchange.UnreadIsGetUnread | src/Client/Client.cpp:35-40 | getting the unread chats returns the inbox and empties it, as the client's own call does |
| Exchange.ChatsArriveInOrder | src/Server/Server.cpp:190-203 | in every interleaving without second logins, a client's inbox history is a prefix of the chats sent successfully to its name, in order, and all of them once its channel is drained |
| ThreadPool.NextInv | src/Shared/ThreadPool.cpp:14-64 | every step of any thread keeps the pool's invariant |
| ThreadPool.EveryStateInv | src/Shared/ThreadPool.cpp:5-64 | the invariant holds in every state of every run |
| ThreadPool.NoWakeupIsLost | src/Shared/ThreadPool.cpp:14-41 | before shutdown, if a worker sleeps the queue is no longer than the notifies to come and the workers awake outside a job; a nonempty queue with all workers asleep has a notify to come |
| ThreadPool.EveryJobIsRun | src/Shared/ThreadPool.cpp:14-41 | before shutdown, from any state reached, the threads can take only a bounded number of steps by themselves, and when they can take no more, the queue is empty and the jobs run to their end are exactly those handed to Enqueue, each as often as handed in |
| ThreadPool.JobsHandedIn | src/Shared/ThreadPool.cpp:34-41 | in every run the jobs handed to Enqueue are those queued and those still in a caller's hand, each as often; one thread's jobs are queued in the order of its calls |
| ThreadPool.JobsConserved | src/Shared/ThreadPool.cpp:27-41 | the jobs pushed are the jobs popped, in order, followed by the queue; those popped are exactly those finished and being run |
| ThreadPool.NothingStartsAfterFlag | src/Shared/ThreadPool.cpp:24-26 | once the flag is set no job is popped and no worker goes to sleep |
| ThreadPool.EveryStepCounts | src/Shared/ThreadPool.cpp:53-64 | once the flag is set every step of any thread lowers a bound on the steps left |
| ThreadPool.ShutdownProgress | src/Shared/ThreadPool.cpp:53-64 | until the pool is destroyed some thread can take its own next step |
| ThreadPool.ShutdownTerminates | src/Shared/ThreadPool.cpp:53-64 | after the flag is set runs are bounded, and one that cannot go on has joined all workers |
| ThreadPool.EveryShutdownEnds | src/Shared/ThreadPool.cpp:5-64 | the same from construction on, whatever ran before; the jobs run to their end are then exactly those popped before the flag |

## Left out

- The key agreement, hashing and encryption: wrappers around a cryptography library; the hash is an arbitrary function and encryption is part of the abstract channel.
- `SecureChannel`: its source is not part of the repository; see the assumptions above.
- Sockets, listening and epoll: system calls; an event is one readable buffer, one hang-up or one accepted connection, in any order.
- Constructing and running `Server` forever: `HandleEvents` takes any list of ready events, and runs take any number of them.
- The response "Failed to read type ID" is built by the server object but never reached, because the message buffer is never empty.
- `Client::Connect`, `Disconnect` and `IsConnected`, and `ClientCLI::Run` and `RunCommand`: one assignment each, or console output.
- `SessionManager::Unauthenticate` and the requests to log out, delete an account, change a password or list users: the server never dispatches them; the messages are in the codec.
- Loading, saving and deleting accounts: file access, or functions without a body.
- Logging, `ToString` and `RequestErrorAsString`: console output.
- `ThreadPool::Busy`: reads whether the queue is empty.
- ThreadPool.Next: the pool is modelled on values, one per state of all threads, not as an object, because its steps interleave; a call of `Enqueue` is taken to begin before the destructor does.
- The failure of an allocation when a deserializer resizes a string or a list: resizing always succeeds here.
- Exchange.Next: a channel between a client and the server never fails in an interleaving; failing channels are covered for single events and runs of the server.
- The request limit per minute: the server stores it and never reads it.
