# Port negotiation and reversal service, in Dafny

The system is a small client/server pair. The server starts with a request code. A client sends that code over UDP to the server's negotiation socket. If the code matches, the server creates a TCP socket on a fresh port and offers that port. The client echoes the port back, and the server acknowledges with `ok`, or with `no` when the echo does not match. A wrong code is answered with `-1`, and the client then exits. After a confirmed negotiation the client connects over TCP and sends a message. The server replies with the message reversed, closes the socket and goes back to listening.

The model has four modules:

- `Wire` (`wire.dfy`) holds the vocabulary both sides share:
  - addresses and datagrams;
  - the `Option`/`Result` wrappers;
  - the decimal text form integers travel in. `IntToString` plays Python's `str`. `ParseInt` plays Python's `int`, with `None` standing for its ValueError.
- `Server` (`server.dfy`) covers the server:
  - The negotiation loop is specified by the mutually recursive functions `Negotiate` (waiting for a request), `Listen` (a request has arrived) and `AwaitConfirmation` (a port has been offered). They run over the sequence of datagrams the server receives. The operating system's choice of fresh ports is a supply `ports` with an index `next`, and the k-th TCP socket ever created is `Endpoint(k, ports[k])`.
  - The imperative method `ServerUdpNegotiation` has the source's `while True` loop, and it is proved to compute `Negotiate`.
  - The main loop is specified by `Serve`. The method `ServeForever` runs it with a `while` loop and is proved equal to `Serve`. `ServerMain` parses the request code and then calls it.
- `Client` (`client.dfy`) covers the client:
  - Its negotiation, a straight line of sends, receives and exits, is a function of what its two receive calls yield.
  - Its command line and its TCP step are in `ClientMain`.
- `Handshake` (`handshake.dfy`) runs both sides against each other over a channel that delivers every message unchanged. It states the end-to-end properties.

Waiting forever is modelled by running out of input:
- a server `recvfrom` with no datagram left gives the outcome `Blocked`;
- a transaction socket on which no message arrives (nobody connects, or the client sends an empty message, which puts no bytes on the connection) gives `AcceptBlocked`;
- a client receive that gets no reply is `NoReply`, and the client then never exits (`Waiting`, `Hung`).

Some behaviours of the code are kept as written:
- The `int()` calls on `Source/server.py:49` and `:58` are not guarded, so a datagram that is not an integer raises ValueError out of the negotiation and ends the whole server. The model's outcome for this is `BadInteger`, and `Serve` stops there.
- A socket offered and then rejected (`no`) is never closed explicitly. `Service.closed` lists only the sockets of completed transactions.
- The client address is reassigned when the confirmation arrives (`Source/server.py:58`). The `ok`/`no` reply therefore goes to whoever sent the confirmation, which need not be the client that sent the code.
- The client sends to its negotiation port without checking it (`Source/client.py:32-33`). A port outside 0..65535 makes `sendto` raise OverflowError, which the `socket.error` handler does not catch: the client ends with status 1 having sent nothing.

## Model

| member | source | states |
|---|---|---|
| Wire.ParseIntToString | Source/server.py:49 | An integer written in decimal by `str` is read back by `int` as the same integer, so the code, the port and the echo survive the wire |
| Wire.NatToStringDigits | Source/client.py:32 | The decimal form of a non-negative integer is a non-empty string of digits whose value is that integer |
| Wire.IntToStringInjective | Source/client.py:40-41 | Two different integers are never sent as the same text |
| Wire.IntToStringNotWord | Source/server.py:56 | A port offer starts with a sign or a digit and is never the literal `ok` or `no` |
| Wire.LiteralReplies | Source/server.py:61-68 | `-1` is the decimal form of -1 and reads back as -1, and `ok` and `no` are not integers |
| Wire.ParseDigits | Source/server.py:49 | A string has a value as an unsigned decimal number exactly when it is non-empty and made only of digits |
| Wire.ParseInt | Source/server.py:49 | `int()` accepts a payload exactly when, after an optional sign, it is a non-empty string of digits; a negative result comes only from a leading minus |
| Wire.NatToString | Source/client.py:32 | The decimal form of a non-negative integer is a non-empty string of digits |
| Wire.IntToString | Source/server.py:56 | `str()` of an integer is non-empty and starts with a minus sign exactly when the integer is negative |
| Server.Negotiate | Source/server.py:46-48 | The number of datagrams consumed never exceeds those available, is at least one when any arrived, and is at least two when a socket is confirmed |
| Server.Listen | Source/server.py:49-68 | Handling an arrived request consumes at least one datagram and no more than are available, and at least two when it ends with a socket |
| Server.AwaitConfirmation | Source/server.py:57-65 | Starting from the state where a port has been offered, it consumes no more datagrams than are available, and at least one when it returns the confirmed socket |
| Server.NonIntegerRaises | Source/server.py:49-58 | A payload that is not an integer, as request or as confirmation, ends the negotiation with the ValueError after consuming it, with nothing answered |
| Server.NoPortNoOffer | Source/server.py:53 | The right code with no fresh port left ends the negotiation with the socket-creation error, before anything is sent or created |
| Server.WrongCodeAnswered | Source/server.py:51-68 | A request with the wrong code is answered `-1` to its sender, creates nothing, and the server keeps listening with the same port supply |
| Server.RightCodeOffered | Source/server.py:51-57 | A request with the right code creates the next socket on the next fresh port and offers that port to the sender; with no further datagram the server waits |
| Server.ConfirmationDecides | Source/server.py:57-65 | After an offer, an echo of the offered port is answered `ok` and returns that socket; any other integer is answered `no` and the server listens again, moving on to the next fresh port |
| Server.OfferAccepted | Source/server.py:51-62 | Right code, then the offered port echoed: two datagrams consumed, the offer to the requester and `ok` to the confirmer, and the offered socket returned |
| Server.OfferRejected | Source/server.py:51-65 | Right code, then another integer: the offer and `no` are sent, the socket stays created, and negotiation starts over on the next fresh port |
| Server.OfferRaises | Source/server.py:51-58 | Right code, then a non-integer confirmation: the offer was sent and the socket created when the ValueError ends the negotiation |
| Server.ServerUdpNegotiation | Source/server.py:30-68 | The loop's result (replies sent, sockets created, datagrams consumed, outcome) is exactly `Negotiate` of its inputs |
| Server.RepliesGoToSenders | Source/server.py:48-68 | Every consumed datagram is answered exactly once, in order, to its own sender, except the one that ends the loop with an error |
| Server.ConfirmedOnlyAfterMatch | Source/server.py:46-62 | A socket is returned only when the last two datagrams are the right code and the offered port. The returned socket is the last one created. `ok` is sent once, as the last reply, after the offer |
| Server.NoEndpointWithoutCode | Source/server.py:51-68 | If no datagram carries the right code, no socket is created, none is returned, and every reply is `-1` |
| Server.FreshEndpoints | Source/server.py:53-54 | The sockets created in one negotiation are numbered on from `next`, each on the next port of the supply |
| Server.Reverse | Source/server.py:86 | The reversal of a message has the same length, begins with its last character and ends with its first |
| Server.ReverseMirrors | Source/server.py:84-88 | The reply has the message's length, and position i holds the character at the mirror position |
| Server.ReverseInvolutive | Source/server.py:86 | Reversing the reply gives back the message |
| Server.ReverseExamples | Source/server.py:86 | `hello` becomes `olleh`, the empty message stays empty, `aabb` becomes `bbaa`, `systems` becomes `smetsys` |
| Server.ServerTcpTransaction | Source/server.py:71-91 | A transaction keeps the socket and the message it read, and its reply has the message's length and reverses back to the message |
| Server.ServeAlternates | Source/server.py:120-122 | The main loop `Serve`: each returned socket gets exactly one transaction. It reads the next message, replies with it reversed and closes that socket. The loop stops only at a negotiation that does not return a socket, or when no message arrives on the confirmed socket |
| Server.SocketsNeverReused | Source/server.py:120-122 | Over the whole run the sockets created are numbered on without gap or repetition, so no TCP socket or port of the supply is used twice |
| Server.ServeForever | Source/server.py:120-122 | The loop's run (negotiations, transactions, sockets closed, why it stopped) is exactly `Serve` of its inputs |
| Server.ParseServerArgs | Source/server.py:111-118 | An accepted command line has the argument, and the request code is what `int()` reads from it |
| Server.ServerArgsAccepted | Source/server.py:111-118 | The code is missing exactly when there is no argument, not an integer exactly when `int()` rejects the argument, and accepted otherwise; later arguments are ignored |
| Server.ServerMain | Source/server.py:111-122 | A missing or non-integer request code exits with status 1 before any socket exists; otherwise the server's run is exactly `Serve` of its inputs |
| Client.ClientUdpNegotiation | Source/client.py:29-51 | The client sends at most two datagrams, all to the negotiation address, and sends nothing exactly when the negotiation port is outside 0..65535 |
| Client.OverflowSendsNothing | Source/client.py:32-33 | A negotiation port outside 0..65535 raises OverflowError at the first `sendto`, uncaught, with nothing sent; it is the only way to that outcome |
| Client.RequestFirst | Source/client.py:31-33 | With a valid negotiation port, the first datagram is the request code in decimal, sent to the negotiation address, and it reads back as that code |
| Client.PortEchoed | Source/client.py:34-41 | The client confirms exactly when its port is valid and the first reply is an integer other than -1, and it sends back that same integer |
| Client.InvalidCodeExits | Source/client.py:34-37 | A reply of -1 ends the client with status 1 after only the request |
| Client.OnlyOkAccepted | Source/client.py:42-48 | A port is returned exactly when the negotiation port is valid, the first reply is an integer other than -1 and the ack is exactly `ok`; the port is the first reply's integer |
| Client.ExitsAreFailures | Source/client.py:35-51 | Every exit has status 1. A socket error on the request exits, and so does any ack other than `ok` |
| Client.NoReplyWaits | Source/client.py:34-42 | The client waits for ever exactly when the receive of the answer, or of the acknowledgement after a confirmation, gets no reply |
| Client.SendsIgnoreAck | Source/client.py:40-42 | What the client sends does not depend on the acknowledgement |
| Client.ParseClientArgs | Source/client.py:97-99 | An accepted command line has at least four arguments, and the address and message are taken as given |
| Client.ClientArgsAccepted | Source/client.py:97-106 | The command line is accepted exactly when it has at least four arguments and the port and code are integers, which become the values used; too few arguments is the missing-parameter error |
| Client.ExitStatus | Source/client.py:97-109 | The status is 0 exactly when the reply was printed, 1 for every other exit, and there is none for a client hung in a receive |
| Client.ClientMain | Source/client.py:107-109 | The client prints a reply only after making a TCP request, and the reply printed is what the TCP receive yielded |
| Client.ArgumentErrorsExit | Source/client.py:97-106 | A bad command line exits with status 1 before any datagram or connection |
| Client.NegotiationPortOverflows | Source/client.py:32-33 | A negotiation port that parses but lies outside 0..65535 ends the client with status 1 before any datagram or connection |
| Client.HungOnlyWithoutReply | Source/client.py:34-42 | The client hangs only in a receive that gets no reply: the answer, the acknowledgement, or the TCP reply once connected |
| Client.TcpOnlyAfterNegotiation | Source/client.py:107-108 | A TCP connection is made exactly when negotiation returned a valid port. It goes to that port on the server's host, carrying the command-line message |
| Handshake.Converse | Source/client.py:29-51 | The server receives exactly the client's datagrams, in order, each stamped with the client's address |
| Handshake.MatchingCodeObtainsOfferedPort | Source/server.py:46-62 | With the server's code, the client gets exactly the port the server offered. The server confirms the one socket it created. Both sides' datagrams are pinned down |
| Handshake.WrongCodeNeverConfirms | Source/server.py:66-68 | With a wrong code, the client exits with status 1 after its one request, the server answers `-1`, creates nothing and goes back to waiting |
| Handshake.ExhaustedSupplyStalls | Source/server.py:51-53 | If no fresh port is left, the server fails to create the socket before it answers, and the client, having sent its request, waits for ever |
| Handshake.OverflowNeverReachesServer | Source/client.py:32-33 | A negotiation port outside 0..65535 stops the client before it sends anything; the server receives nothing and goes on waiting |
| Handshake.BothSidesAgree | Source/client.py:42-45 | In every conversation, including the failing ones, the client holds a port exactly when the server has confirmed a socket, and it is that socket's port |
| Handshake.RunSession | Source/server.py:120-122 | In one client's session the server runs at most one transaction, and the message it reads is the non-empty one on that client's command line |
| Handshake.ClientReceivesReversedMessage | Source/client.py:107-109 | With the right code, a valid negotiation port, a free port and a non-empty message, the client prints its message reversed and exits 0. The server runs exactly one transaction on the offered socket and closes it |
| Handshake.WrongCodeNoTransaction | Source/client.py:34-37 | With a wrong code, the client exits 1 without any TCP connection, and the server runs no transaction, whatever the negotiation port |
| Handshake.ExhaustedSupplyHangsClient | Source/client.py:34 | With the right code but no fresh port, the server stops at the failed socket creation and the client hangs in its receive, never exiting or connecting |
| Handshake.EmptyMessageHangs | Source/client.py:73-74 | With the right code, a valid negotiation port and a free port but an empty message, the client connects and sends no bytes; the server never receives a message and runs no transaction, and the client hangs in its receive with no exit status |
| Handshake.SystemsScenario | Source/server.py:84-88 | A server with code 42 and a client sending `systems` with code 42 on a valid negotiation port: the client prints `smetsys` and exits 0 |
| Handshake.WrongCodeScenario | Source/client.py:34-37 | A client with code 7 against a server with code 42 exits 1 and never connects over TCP |
| Handshake.OverflowScenario | Source/client.py:32-33 | A client with the right code but negotiation port 70000 exits 1 having sent nothing, and the server runs no transaction |

## Left out

- Socket creation and binding are not modelled (`Source/server.py:14-27`, `Source/client.py:30,70-71`). The ports the operating system picks are a supply passed in. An exhausted supply stands for a failing `bind` (`BindError`). The negotiation socket's own port is not modelled.
- Output written with `print` is left out. It only logs, and none of it is read back.
- Wire encoding is not modelled. Payloads are text; UTF-8 encoding and decoding and the 1024-byte limit on one receive are left out, so a longer message is not shown being cut short.
- The `while True` loops never end. The model bounds them by the finite inputs and reports `Blocked` or `AcceptBlocked` where the source would wait forever.
- Wire.ParseInt: models `int()` on a payload as an optional sign followed by ASCII digits. Python also accepts surrounding whitespace, underscores between digits and non-ASCII digits; these are not modelled.
- Client.ClientUdpNegotiation: a socket error raised by a send is folded into the receive that follows it, and the datagram is still recorded as sent.
- Server.ServerTcpTransaction: errors on the TCP connection (a peer that closes early, a failing `send`) are not modelled. Each transaction reads one whole message.
- Wire.IntToString: its own contract states only the sign and that the text is non-empty. That the digits read back as the integer is stated by `Wire.ParseIntToString`.
- Server.Serve: the main loop's properties are stated as the lemmas `Server.ServeAlternates` and `Server.SocketsNeverReused`, not as postconditions of `Serve`. Such postconditions would be re-proved inside every loop step of `Server.ServeForever`.
- Client.ClientMain: every error in the TCP step is one `Uncaught` outcome. This covers a port outside 0..65535, a refused connection and a failing receive. The exception's kind is not kept.
- Concurrency is not modelled. The server handles one client at a time, as the code does. Interleaved datagrams from several clients appear only as the order in which they reach `recvfrom`.
