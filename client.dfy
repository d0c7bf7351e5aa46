/** The client of the negotiation protocol: it sends its request code over
    UDP, echoes back the port the server offers, and on acknowledgement
    sends its message over TCP to that port and reports the reply. */
module Client {
  import opened Wire

  /** What one `recvfrom`/`recv` call yields: a payload, a socket error
      (raised by that call or by the send just before it), or nothing at
      all: no timeout is set, so a call that gets no reply waits for ever. */
  datatype Recv = Got(payload: string) | SocketError | NoReply

  /** How the negotiation ends: with the transaction port, with
      `sys.exit(status)`, with an exception nothing catches (the ValueError
      of `int()` on a payload that is not an integer, or the OverflowError
      of `sendto` to a port outside 0..65535), or never, waiting for a
      reply. */
  datatype ClientOutcome =
    | Negotiated(port: int)
    | Exit(status: int)
    | ValueErrorRaised
    | OverflowRaised
    | Waiting

  /** The datagrams the client sent, in order, and how it ended. */
  datatype ClientNegotiation = ClientNegotiation(sent: seq<Datagram>, outcome: ClientOutcome)

  /** A port `sendto` accepts. */
  predicate ValidPort(port: int) {
    0 <= port < 0x1_0000
  }

  /** The negotiation as seen by the client, given what its two receive
      calls yield. `server` is the negotiation address; `first` answers
      the request and `second` the confirmation. */
  function ClientUdpNegotiation(server: Address, code: int, first: Recv, second: Recv): (c: ClientNegotiation)
    ensures |c.sent| <= 2
    ensures c.sent == [] <==> !ValidPort(server.port)
    ensures forall k :: 0 <= k < |c.sent| ==> c.sent[k].peer == server
  {
    if !ValidPort(server.port) then ClientNegotiation([], OverflowRaised)
    else
      var request := Datagram(IntToString(code), server);
      match first
      case NoReply => ClientNegotiation([request], Waiting)
      case SocketError => ClientNegotiation([request], Exit(1))
      case Got(reply) =>
        match ParseInt(reply)
        case None => ClientNegotiation([request], ValueErrorRaised)
        case Some(p) =>
          if p == -1 then ClientNegotiation([request], Exit(1))
          else
            var confirmation := Datagram(IntToString(p), server);
            match second
            case NoReply => ClientNegotiation([request, confirmation], Waiting)
            case SocketError => ClientNegotiation([request, confirmation], Exit(1))
            case Got(ack) =>
              if ack == "ok" then ClientNegotiation([request, confirmation], Negotiated(p))
              else ClientNegotiation([request, confirmation], Exit(1))
  }

  /** A negotiation port outside 0..65535 makes the first `sendto` raise
      OverflowError, which the `socket.error` handler does not catch: the
      client ends having sent nothing, whatever the replies would be. */
  lemma OverflowSendsNothing(server: Address, code: int, first: Recv, second: Recv)
    ensures var c := ClientUdpNegotiation(server, code, first, second);
            c.outcome == OverflowRaised <==> !ValidPort(server.port)
    ensures !ValidPort(server.port) ==> ClientUdpNegotiation(server, code, first, second).sent == []
  {
  }

  /** The first datagram is the request code in decimal, sent to the
      negotiation address, and the server reads it back as that code. */
  lemma RequestFirst(server: Address, code: int, first: Recv, second: Recv)
    ensures var c := ClientUdpNegotiation(server, code, first, second);
            ValidPort(server.port) ==>
              c.sent[0] == Datagram(IntToString(code), server) && ParseInt(c.sent[0].payload) == Some(code)
  {
    ParseIntToString(code);
  }

  /** The client confirms (sends a second datagram) exactly when the first
      reply is an integer other than -1, and what it sends is that same
      integer, which reads back as it. */
  lemma PortEchoed(server: Address, code: int, first: Recv, second: Recv)
    ensures var c := ClientUdpNegotiation(server, code, first, second);
            |c.sent| == 2 <==>
              ValidPort(server.port) && first.Got? && ParseInt(first.payload).Some? && ParseInt(first.payload).value != -1
    ensures var c := ClientUdpNegotiation(server, code, first, second);
            |c.sent| == 2 ==>
              c.sent[1] == Datagram(IntToString(ParseInt(first.payload).value), server) &&
              ParseInt(c.sent[1].payload) == ParseInt(first.payload)
  {
    if first.Got? && ParseInt(first.payload).Some? {
      ParseIntToString(ParseInt(first.payload).value);
    }
  }

  /** An invalid request code, signalled by the reply `-1`, ends the client
      with status 1 before it confirms anything. */
  lemma InvalidCodeExits(server: Address, code: int, reply: string, second: Recv)
    requires ParseInt(reply) == Some(-1)
    ensures var c := ClientUdpNegotiation(server, code, Got(reply), second);
            ValidPort(server.port) ==> c.outcome == Exit(1) && |c.sent| == 1
  {
  }

  /** The client returns a port exactly when the first reply is an integer
      other than -1 and the acknowledgement is exactly `ok`; the port is
      the integer from the first reply. */
  lemma OnlyOkAccepted(server: Address, code: int, first: Recv, second: Recv)
    ensures var c := ClientUdpNegotiation(server, code, first, second);
            c.outcome.Negotiated? <==>
              && ValidPort(server.port)
              && first.Got? && ParseInt(first.payload).Some? && ParseInt(first.payload).value != -1
              && second == Got("ok")
    ensures var c := ClientUdpNegotiation(server, code, first, second);
            c.outcome.Negotiated? ==> c.outcome.port == ParseInt(first.payload).value
  {
  }

  /** Every exit is with status 1: a socket error, the reply `-1`, or an
      acknowledgement other than `ok`. */
  lemma ExitsAreFailures(server: Address, code: int, first: Recv, second: Recv)
    ensures var c := ClientUdpNegotiation(server, code, first, second);
            c.outcome.Exit? ==> c.outcome.status == 1
    ensures ValidPort(server.port) && first == SocketError ==>
              ClientUdpNegotiation(server, code, first, second).outcome == Exit(1)
    ensures (ValidPort(server.port) &&
             first.Got? && ParseInt(first.payload).Some? && ParseInt(first.payload).value != -1 &&
             second != Got("ok") && second != NoReply) ==>
              ClientUdpNegotiation(server, code, first, second).outcome == Exit(1)
  {
  }

  /** The client waits for ever exactly when a receive it reaches gets no
      reply: the answer to its request, or the acknowledgement of its
      confirmation. */
  lemma NoReplyWaits(server: Address, code: int, first: Recv, second: Recv)
    ensures var c := ClientUdpNegotiation(server, code, first, second);
            c.outcome == Waiting <==>
              && ValidPort(server.port)
              && (|| first == NoReply
                  || (first.Got? && ParseInt(first.payload).Some? && ParseInt(first.payload).value != -1 &&
                      second == NoReply))
  {
  }

  /** What the client sends depends only on the first reply, never on the
      acknowledgement. */
  lemma SendsIgnoreAck(server: Address, code: int, first: Recv, second: Recv, other: Recv)
    ensures ClientUdpNegotiation(server, code, first, second).sent ==
            ClientUdpNegotiation(server, code, first, other).sent
  {
  }

  /** The client's command line: server address, negotiation port,
      request code and message. */
  datatype ClientArgs = ClientArgs(server: string, nPort: int, code: int, message: string)

  /** `argv[1]` to `argv[4]`; `argv[0]` is the program name. The two
      string arguments are fetched first, so a short command line is a
      missing argument even when a present port is not an integer. */
  function ParseClientArgs(argv: seq<string>): (r: Result<ClientArgs, ArgError>)
    ensures r.Ok? ==> |argv| >= 5 && r.value.server == argv[1] && r.value.message == argv[4]
  {
    if |argv| < 5 then Err(MissingArgument)
    else match (ParseInt(argv[2]), ParseInt(argv[3]))
      case (Some(nPort), Some(code)) => Ok(ClientArgs(argv[1], nPort, code, argv[4]))
      case _ => Err(NotInteger)
  }

  /** The command line is accepted exactly when it has the four arguments
      and the port and code are integers, which become the values used. */
  lemma ClientArgsAccepted(argv: seq<string>)
    ensures ParseClientArgs(argv).Ok? <==>
              |argv| >= 5 && ParseInt(argv[2]).Some? && ParseInt(argv[3]).Some?
    ensures ParseClientArgs(argv).Ok? ==>
              ParseClientArgs(argv).value ==
              ClientArgs(argv[1], ParseInt(argv[2]).value, ParseInt(argv[3]).value, argv[4])
    ensures |argv| < 5 ==> ParseClientArgs(argv) == Err(MissingArgument)
  {
  }

  /** The TCP connection the client opens: the peer it connects to and
      the message it sends. */
  datatype TcpRequest = TcpRequest(peer: Address, message: string)

  /** How the client process ends. */
  datatype ClientEnd =
    | ArgumentError(error: ArgError)      // bad command line, `sys.exit(1)`
    | NegotiationFailed(outcome: ClientOutcome)  // the negotiation exited or raised
    | Uncaught                            // the TCP step raised (bad port, socket error)
    | Printed(reply: string)              // the reply printed, normal exit
    | Hung                                // a receive that never returns: no exit at all

  /** The whole client run: the UDP datagrams sent, the TCP request if one
      was made, and how the process ended. */
  datatype ClientRun = ClientRun(sent: seq<Datagram>, tcp: Option<TcpRequest>, end: ClientEnd)

  /** The process exit status: 0 only when the reply is printed; an exit
      through `sys.exit(1)` and an uncaught exception both give 1; a
      process hung in a receive has none. */
  function ExitStatus(end: ClientEnd): (status: Option<int>)
    ensures status == None <==> end.Hung?
    ensures status == Some(0) <==> end.Printed?
    ensures status.Some? ==> status.value == 0 || status.value == 1
  {
    match end
    case Hung => None
    case Printed(_) => Some(0)
    case _ => Some(1)
  }

  /** The client's entry point, given what its two UDP receives and its
      TCP receive yield. The TCP step connects to the negotiated port on
      the server's host; a port outside 0..65535 makes `connect` raise. */
  function ClientMain(argv: seq<string>, first: Recv, second: Recv, tcpReply: Recv): (r: ClientRun)
    ensures r.end.Printed? ==> r.tcp.Some? && tcpReply == Got(r.end.reply)
  {
    match ParseClientArgs(argv)
    case Err(e) => ClientRun([], None, ArgumentError(e))
    case Ok(a) =>
      var c := ClientUdpNegotiation(Address(a.server, a.nPort), a.code, first, second);
      if c.outcome == Waiting then ClientRun(c.sent, None, Hung)
      else if !c.outcome.Negotiated? then ClientRun(c.sent, None, NegotiationFailed(c.outcome))
      else
        var p := c.outcome.port;
        if !ValidPort(p) then ClientRun(c.sent, None, Uncaught)
        else
          var request := TcpRequest(Address(a.server, p), a.message);
          match tcpReply
          case NoReply => ClientRun(c.sent, Some(request), Hung)
          case SocketError => ClientRun(c.sent, Some(request), Uncaught)
          case Got(reply) => ClientRun(c.sent, Some(request), Printed(reply))
  }

  /** A bad command line ends the client with status 1 before anything is
      sent. */
  lemma ArgumentErrorsExit(argv: seq<string>, first: Recv, second: Recv, tcpReply: Recv)
    requires ParseClientArgs(argv).Err?
    ensures var r := ClientMain(argv, first, second, tcpReply);
            r.end == ArgumentError(ParseClientArgs(argv).error) && ExitStatus(r.end) == Some(1) &&
            r.sent == [] && r.tcp == None
  {
  }

  /** A negotiation port that parses but lies outside 0..65535 ends the
      client with status 1 at its first `sendto`, before any datagram or
      connection. */
  lemma NegotiationPortOverflows(argv: seq<string>, first: Recv, second: Recv, tcpReply: Recv)
    requires ParseClientArgs(argv).Ok? && !ValidPort(ParseClientArgs(argv).value.nPort)
    ensures var r := ClientMain(argv, first, second, tcpReply);
            r.end == NegotiationFailed(OverflowRaised) && ExitStatus(r.end) == Some(1) &&
            r.sent == [] && r.tcp == None
  {
  }

  /** The client hangs only in a receive that gets no reply: one of its two
      UDP receives, or the TCP receive once the connection is made. */
  lemma HungOnlyWithoutReply(argv: seq<string>, first: Recv, second: Recv, tcpReply: Recv)
    ensures var r := ClientMain(argv, first, second, tcpReply);
            r.end.Hung? ==> first == NoReply || second == NoReply || (r.tcp.Some? && tcpReply == NoReply)
  {
    if ParseClientArgs(argv).Ok? {
      var a := ParseClientArgs(argv).value;
      NoReplyWaits(Address(a.server, a.nPort), a.code, first, second);
    }
  }

  /** A TCP connection is made only after the negotiation returned a port,
      and it goes to that port on the server's host carrying the message
      from the command line; conversely a valid negotiated port always
      leads to the connection. */
  lemma TcpOnlyAfterNegotiation(argv: seq<string>, first: Recv, second: Recv, tcpReply: Recv)
    ensures var r := ClientMain(argv, first, second, tcpReply);
            r.tcp.Some? <==>
              && ParseClientArgs(argv).Ok?
              && var a := ParseClientArgs(argv).value;
                 var c := ClientUdpNegotiation(Address(a.server, a.nPort), a.code, first, second);
                 c.outcome.Negotiated? && ValidPort(c.outcome.port)
    ensures var r := ClientMain(argv, first, second, tcpReply);
            r.tcp.Some? ==>
              var a := ParseClientArgs(argv).value;
              var c := ClientUdpNegotiation(Address(a.server, a.nPort), a.code, first, second);
              r.tcp.value == TcpRequest(Address(a.server, c.outcome.port), a.message) &&
              r.sent == c.sent
  {
  }
}
