/** The server and the client run against each other over a channel that
    delivers every datagram and every TCP message unchanged: what each side
    receives is exactly what the other sent. The client is taken to address
    the server's negotiation socket: its datagrams reach the server whatever
    host and port its command line names, as long as `sendto` accepts them.
    An empty TCP message sends no bytes, so the server's `recv` gets nothing
    and both sides wait. */
module Handshake {
  import opened Wire
  import opened Server
  import opened Client

  /** One negotiation between one client and the server. `events` are the
      datagrams the server received (the client's, stamped with the
      client's address), `first` and `second` what the client's receives
      yielded, and `client`/`server` the two sides' records. */
  datatype Conversation = Conversation(events: seq<Datagram>, first: Recv, second: Recv,
                                       client: ClientNegotiation, server: Negotiation)

  /** The server's answer to its `k`-th datagram, as the client's receive
      yields it; a server that never sent one leaves the receive waiting. */
  function ReplyTo(n: Negotiation, k: nat): Recv {
    if k < |n.sent| then Got(n.sent[k].payload) else NoReply
  }

  /** The datagrams `sends` as the server receives them: the same payloads,
      each from the client's address `from`. */
  function Arrived(sends: seq<Datagram>, from: Address): (r: seq<Datagram>)
    ensures |r| == |sends|
    ensures forall k :: 0 <= k < |r| ==> r[k] == Datagram(sends[k].payload, from)
  {
    seq(|sends|, k requires 0 <= k < |sends| => Datagram(sends[k].payload, from))
  }

  /** Run the negotiation: whatever the client sends before any reply (its
      request) reaches the server; the server's answer reaches the client,
      whose datagrams (which do not depend on the acknowledgement) reach the
      server; the server's answer to the confirmation reaches the client. */
  function Converse(serverCode: int, ports: seq<Port>, next: nat,
                    clientAddr: Address, serverAddr: Address, clientCode: int): (h: Conversation)
    ensures |h.events| == |h.client.sent|
    ensures forall k :: 0 <= k < |h.events| ==> h.events[k] == Datagram(h.client.sent[k].payload, clientAddr)
  {
    var asked := ClientUdpNegotiation(serverAddr, clientCode, NoReply, NoReply).sent;
    var opening := Negotiate(serverCode, ports, next, Arrived(asked, clientAddr));
    var first := ReplyTo(opening, 0);
    var sends := ClientUdpNegotiation(serverAddr, clientCode, first, NoReply).sent;
    var events := Arrived(sends, clientAddr);
    var n := Negotiate(serverCode, ports, next, events);
    var second := ReplyTo(n, 1);
    var c := ClientUdpNegotiation(serverAddr, clientCode, first, second);
    SendsIgnoreAck(serverAddr, clientCode, first, NoReply, second);
    Conversation(events, first, second, c, n)
  }

  /** A client holding the server's request code obtains exactly the port
      the server offers, and both sides agree: the server confirms the
      socket it created for this client, its only one. */
  lemma MatchingCodeObtainsOfferedPort(code: int, ports: seq<Port>, next: nat, clientAddr: Address, serverAddr: Address)
    requires next < |ports| && ValidPort(serverAddr.port)
    ensures var h := Converse(code, ports, next, clientAddr, serverAddr, code);
            && h.client.outcome == Negotiated(ports[next])
            && h.server.outcome == Confirmed(Endpoint(next, ports[next]))
            && h.server.created == [Endpoint(next, ports[next])]
            && h.client.sent == [Datagram(IntToString(code), serverAddr), Datagram(IntToString(ports[next]), serverAddr)]
            && h.server.sent == [Datagram(IntToString(ports[next]), clientAddr), Datagram("ok", clientAddr)]
  {
    var request := Datagram(IntToString(code), clientAddr);
    ParseIntToString(code);
    ParseIntToString(ports[next]);
    IntToStringNotWord(ports[next]);
    var offer := IntToString(ports[next]);
    assert Arrived(ClientUdpNegotiation(serverAddr, code, NoReply, NoReply).sent, clientAddr) == [request];
    RightCodeOffered(code, ports, next, [request]);
    assert Negotiate(code, ports, next, [request]).sent == [Datagram(offer, clientAddr)];
    var events := [request, Datagram(offer, clientAddr)];
    assert Arrived(ClientUdpNegotiation(serverAddr, code, Got(offer), NoReply).sent, clientAddr) == events;
    RightCodeOffered(code, ports, next, events);
    ConfirmationDecides(code, ports, next, events[1..], ports[next]);
    var h := Converse(code, ports, next, clientAddr, serverAddr, code);
    assert h.events == events;
  }

  /** A client with a wrong code is told `-1` and exits with status 1
      after its one request; it never confirms, and the server creates no
      socket and goes back to waiting for requests. */
  lemma WrongCodeNeverConfirms(serverCode: int, ports: seq<Port>, next: nat, clientAddr: Address, serverAddr: Address, clientCode: int)
    requires clientCode != serverCode && ValidPort(serverAddr.port)
    ensures var h := Converse(serverCode, ports, next, clientAddr, serverAddr, clientCode);
            && h.client.outcome == Exit(1)
            && h.client.sent == [Datagram(IntToString(clientCode), serverAddr)]
            && h.server.sent == [Datagram("-1", clientAddr)]
            && h.server.created == []
            && h.server.outcome == Blocked
  {
    var request := Datagram(IntToString(clientCode), clientAddr);
    ParseIntToString(clientCode);
    LiteralReplies();
    assert Arrived(ClientUdpNegotiation(serverAddr, clientCode, NoReply, NoReply).sent, clientAddr) == [request];
    WrongCodeAnswered(serverCode, ports, next, [request]);
    assert Arrived(ClientUdpNegotiation(serverAddr, clientCode, Got("-1"), NoReply).sent, clientAddr) == [request];
    var h := Converse(serverCode, ports, next, clientAddr, serverAddr, clientCode);
    assert h.events == [request];
  }

  /** When every fresh port has been used, the server fails to create the
      socket before it answers a matching request, and the client, having
      sent that request, waits for ever for the answer. */
  lemma ExhaustedSupplyStalls(code: int, ports: seq<Port>, next: nat, clientAddr: Address, serverAddr: Address)
    requires next >= |ports| && ValidPort(serverAddr.port)
    ensures var h := Converse(code, ports, next, clientAddr, serverAddr, code);
            && h.server.outcome == BindError && h.server.created == [] && h.server.sent == []
            && h.client.outcome == Waiting
            && h.client.sent == [Datagram(IntToString(code), serverAddr)]
  {
    var request := Datagram(IntToString(code), clientAddr);
    ParseIntToString(code);
    assert Arrived(ClientUdpNegotiation(serverAddr, code, NoReply, NoReply).sent, clientAddr) == [request];
    NoPortNoOffer(code, ports, next, [request]);
  }

  /** A negotiation port outside 0..65535 stops the client at its first
      `sendto`: nothing reaches the server, which goes on waiting. */
  lemma OverflowNeverReachesServer(serverCode: int, ports: seq<Port>, next: nat, clientAddr: Address, serverAddr: Address, clientCode: int)
    requires !ValidPort(serverAddr.port)
    ensures var h := Converse(serverCode, ports, next, clientAddr, serverAddr, clientCode);
            && h.client.outcome == OverflowRaised && h.client.sent == []
            && h.events == [] && h.server.outcome == Blocked && h.server.sent == []
  {
  }

  /** In every conversation, the two sides agree: the client has a port
      exactly when the server has confirmed a socket, and it is that
      socket's port. */
  lemma BothSidesAgree(serverCode: int, ports: seq<Port>, next: nat, clientAddr: Address, serverAddr: Address, clientCode: int)
    ensures var h := Converse(serverCode, ports, next, clientAddr, serverAddr, clientCode);
            && (h.client.outcome.Negotiated? <==> h.server.outcome.Confirmed?)
            && (h.client.outcome.Negotiated? ==> h.client.outcome.port == h.server.outcome.endpoint.port)
  {
    if !ValidPort(serverAddr.port) {
      OverflowNeverReachesServer(serverCode, ports, next, clientAddr, serverAddr, clientCode);
    } else if clientCode == serverCode {
      if next < |ports| {
        MatchingCodeObtainsOfferedPort(serverCode, ports, next, clientAddr, serverAddr);
      } else {
        ExhaustedSupplyStalls(serverCode, ports, next, clientAddr, serverAddr);
      }
    } else {
      WrongCodeNeverConfirms(serverCode, ports, next, clientAddr, serverAddr, clientCode);
    }
  }

  /** A whole session: the server (started with `serverCode` and a fresh
      port supply) and one client (started with `argv`) run to the end; the
      message the client sends over TCP is the one the server reads. */
  datatype Session = Session(service: Service, run: ClientRun)

  /** The server runs at most one transaction for the one client, and it
      reads the message from that client's command line. An empty message
      puts no bytes on the connection, so the server reads nothing and the
      client's receive gets no reply. */
  function RunSession(serverCode: int, ports: seq<Port>, clientAddr: Address, argv: seq<string>): (s: Session)
    ensures |s.service.transactions| <= 1
    ensures forall i :: 0 <= i < |s.service.transactions| ==>
              && ParseClientArgs(argv).Ok?
              && s.service.transactions[i].received == ParseClientArgs(argv).value.message
              && s.service.transactions[i].received != ""
  {
    match ParseClientArgs(argv)
    case Err(_) =>
      ServeAlternates(serverCode, ports, 0, [], []);
      Session(Serve(serverCode, ports, 0, [], []), ClientMain(argv, NoReply, NoReply, NoReply))
    case Ok(a) =>
      var h := Converse(serverCode, ports, 0, clientAddr, Address(a.server, a.nPort), a.code);
      var messages := if h.client.outcome.Negotiated? && a.message != "" then [a.message] else [];
      var service := Serve(serverCode, ports, 0, h.events, messages);
      ServeAlternates(serverCode, ports, 0, h.events, messages);
      var tcpReply := if service.transactions != [] then Got(service.transactions[0].reply) else NoReply;
      Session(service, ClientMain(argv, h.first, h.second, tcpReply))
  }

  /** With the right code, a valid negotiation port, a port to offer and a
      non-empty message, the client prints its message reversed and exits
      with status 0, and the server has run exactly one transaction, on the
      socket it offered, and closed it. */
  lemma ClientReceivesReversedMessage(serverCode: int, ports: seq<Port>, clientAddr: Address, argv: seq<string>)
    requires ParseClientArgs(argv).Ok? && ParseClientArgs(argv).value.code == serverCode
    requires ValidPort(ParseClientArgs(argv).value.nPort)
    requires ParseClientArgs(argv).value.message != ""
    requires |ports| >= 1
    ensures var s := RunSession(serverCode, ports, clientAddr, argv);
            var msg := ParseClientArgs(argv).value.message;
            && s.run.end == Printed(Reverse(msg))
            && ExitStatus(s.run.end) == Some(0)
            && s.run.tcp == Some(TcpRequest(Address(argv[1], ports[0]), msg))
            && s.service.transactions == [Transaction(Endpoint(0, ports[0]), msg, Reverse(msg))]
            && s.service.closed == [Endpoint(0, ports[0])]
  {
    var a := ParseClientArgs(argv).value;
    var serverAddr := Address(a.server, a.nPort);
    MatchingCodeObtainsOfferedPort(serverCode, ports, 0, clientAddr, serverAddr);
    var h := Converse(serverCode, ports, 0, clientAddr, serverAddr, a.code);
    assert h.events[h.server.consumed..] == [] && [a.message][1..] == [];
    var s := RunSession(serverCode, ports, clientAddr, argv);
    assert s.service == Resume([h.server], [ServerTcpTransaction(Endpoint(0, ports[0]), a.message)], [Endpoint(0, ports[0])],
                               Serve(serverCode, ports, 1, [], []));
  }

  /** With the right code, a valid negotiation port and a port to offer but
      an empty message, the client connects and sends nothing; the server's
      transaction never receives a message, and the client hangs in its
      receive with no exit status. */
  lemma EmptyMessageHangs(serverCode: int, ports: seq<Port>, clientAddr: Address, argv: seq<string>)
    requires ParseClientArgs(argv).Ok? && ParseClientArgs(argv).value.code == serverCode
    requires ValidPort(ParseClientArgs(argv).value.nPort)
    requires ParseClientArgs(argv).value.message == ""
    requires |ports| >= 1
    ensures var s := RunSession(serverCode, ports, clientAddr, argv);
            && s.run.end == Hung && ExitStatus(s.run.end) == None
            && s.run.tcp == Some(TcpRequest(Address(argv[1], ports[0]), ""))
            && s.service.transactions == []
            && s.service.halt == AcceptBlocked
  {
    var a := ParseClientArgs(argv).value;
    MatchingCodeObtainsOfferedPort(serverCode, ports, 0, clientAddr, Address(a.server, a.nPort));
  }

  /** With a wrong code the client exits with status 1 without opening a
      TCP connection, and the server runs no transaction. */
  lemma WrongCodeNoTransaction(serverCode: int, ports: seq<Port>, clientAddr: Address, argv: seq<string>)
    requires ParseClientArgs(argv).Ok? && ParseClientArgs(argv).value.code != serverCode
    ensures var s := RunSession(serverCode, ports, clientAddr, argv);
            && s.run.tcp == None
            && ExitStatus(s.run.end) == Some(1)
            && s.service.transactions == []
            && s.service.halt == NegotiationHalted(Blocked)
  {
    var a := ParseClientArgs(argv).value;
    var serverAddr := Address(a.server, a.nPort);
    if ValidPort(a.nPort) {
      WrongCodeNeverConfirms(serverCode, ports, 0, clientAddr, serverAddr, a.code);
    } else {
      OverflowNeverReachesServer(serverCode, ports, 0, clientAddr, serverAddr, a.code);
    }
  }

  /** With the right code but no fresh port, the server stops at the failed
      socket creation without answering, and the client hangs in its
      receive: it never exits and never connects. */
  lemma ExhaustedSupplyHangsClient(serverCode: int, clientAddr: Address, argv: seq<string>)
    requires ParseClientArgs(argv).Ok? && ParseClientArgs(argv).value.code == serverCode
    requires ValidPort(ParseClientArgs(argv).value.nPort)
    ensures var s := RunSession(serverCode, [], clientAddr, argv);
            && s.run.end == Hung && ExitStatus(s.run.end) == None && s.run.tcp == None
            && s.service.transactions == []
            && s.service.halt == NegotiationHalted(BindError)
  {
    var a := ParseClientArgs(argv).value;
    ExhaustedSupplyStalls(serverCode, [], 0, clientAddr, Address(a.server, a.nPort));
  }

  /** A server started with code 42 and a client sending `systems` with
      code 42: the client prints `smetsys` and exits with status 0. */
  lemma SystemsScenario(ports: seq<Port>, clientAddr: Address, nPort: string)
    requires |ports| >= 1 && ParseInt(nPort).Some? && ValidPort(ParseInt(nPort).value)
    ensures var s := RunSession(42, ports, clientAddr, ["client.py", "localhost", nPort, "42", "systems"]);
            s.run.end == Printed("smetsys") && ExitStatus(s.run.end) == Some(0)
  {
    var argv := ["client.py", "localhost", nPort, "42", "systems"];
    assert ParseDigits("4") == Some(4);
    assert ParseInt(argv[3]) == Some(42);
    ReverseExamples();
    ClientReceivesReversedMessage(42, ports, clientAddr, argv);
  }

  /** The same server and a client with code 7: the client exits with
      status 1 and never connects over TCP. */
  lemma WrongCodeScenario(ports: seq<Port>, clientAddr: Address, nPort: string)
    requires ParseInt(nPort).Some?
    ensures var s := RunSession(42, ports, clientAddr, ["client.py", "localhost", nPort, "7", "systems"]);
            s.run.tcp == None && ExitStatus(s.run.end) == Some(1)
  {
    var argv := ["client.py", "localhost", nPort, "7", "systems"];
    assert ParseInt(argv[3]) == Some(7);
    WrongCodeNoTransaction(42, ports, clientAddr, argv);
  }

  /** The right code, but the negotiation port 70000: the client's first
      `sendto` raises, so it exits with status 1 having sent nothing, and
      the server never hears from it. */
  lemma OverflowScenario(ports: seq<Port>, clientAddr: Address)
    ensures var s := RunSession(42, ports, clientAddr, ["client.py", "localhost", "70000", "42", "systems"]);
            && s.run.end == NegotiationFailed(OverflowRaised) && ExitStatus(s.run.end) == Some(1)
            && s.run.sent == [] && s.run.tcp == None
            && s.service.transactions == [] && s.service.halt == NegotiationHalted(Blocked)
  {
    var argv := ["client.py", "localhost", "70000", "42", "systems"];
    assert "70"[..1] == "7" && "700"[..2] == "70" && "7000"[..3] == "700" && "70000"[..4] == "7000";
    assert ParseDigits("7") == Some(7);
    assert ParseDigits("70") == Some(70);
    assert ParseDigits("700") == Some(700);
    assert ParseDigits("7000") == Some(7000);
    assert ParseInt(argv[2]) == Some(70000);
    assert ParseDigits("4") == Some(4);
    assert ParseInt(argv[3]) == Some(42);
    OverflowNeverReachesServer(42, ports, 0, clientAddr, Address("localhost", 70000), 42);
  }
}
