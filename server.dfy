/** The server: a UDP negotiation that hands out a fresh TCP endpoint to a
    client presenting the right request code, a one-shot TCP transaction
    that answers a message with its reversal, and the main loop that
    alternates the two. Sockets are abstracted: the datagrams arriving on
    the negotiation socket are a sequence of events, the datagrams it sends
    are a log, and the port the system binds each new TCP socket to is taken
    from a supply of fresh ports given by the caller. */
module Server {
  import opened Wire

  /** A TCP socket created for one offer. `id` numbers the TCP sockets in the
      order they were created; `port` is the port the system bound it to. */
  datatype Endpoint = Endpoint(id: nat, port: Port)

  /** How a negotiation ends. */
  datatype NegOutcome =
    | Confirmed(endpoint: Endpoint)  // the confirmed TCP socket is returned
    | Blocked                        // waits in recvfrom for a datagram that never arrives
    | BadInteger                     // int() raised ValueError on a payload; nothing catches it
    | BindError                      // the new TCP socket could not be bound: no fresh port left

  /** What one negotiation did: its outcome, the datagrams it sent in order,
      the TCP sockets it created in order, and how many datagrams it read. */
  datatype Negotiation = Negotiation(outcome: NegOutcome, sent: seq<Datagram>, created: seq<Endpoint>, consumed: nat)

  /** `n` preceded by datagrams already sent, sockets already created and
      datagrams already read. */
  function Then(sent: seq<Datagram>, created: seq<Endpoint>, consumed: nat, n: Negotiation): Negotiation {
    Negotiation(n.outcome, sent + n.sent, created + n.created, consumed + n.consumed)
  }

  /** The negotiation state machine waiting for a request code, reading
      `events` from the start, with `ports[next..]` the fresh ports still
      available to new TCP sockets. With no datagram left the server waits
      for ever; otherwise `Listen` handles the one that arrived. */
  function Negotiate(code: int, ports: seq<Port>, next: nat, events: seq<Datagram>): (n: Negotiation)
    ensures n.consumed <= |events|
    ensures events != [] ==> n.consumed >= 1
    ensures n.outcome.Confirmed? ==> n.consumed >= 2
    decreases |events|, 1
  {
    if events == [] then Negotiation(Blocked, [], [], 0) else Listen(code, ports, next, events)
  }

  /** A datagram `events[0]` has arrived while the server waits for a
      request code. A non-integer payload raises; a wrong code is answered
      `-1` and the server waits again; the right code creates a TCP socket
      whose port is offered to the requester, and the server then waits for
      the confirmation. Every answer goes to the sender of the datagram
      just read. */
  function Listen(code: int, ports: seq<Port>, next: nat, events: seq<Datagram>): (n: Negotiation)
    requires events != []
    ensures 1 <= n.consumed <= |events|
    ensures n.outcome.Confirmed? ==> n.consumed >= 2
    decreases |events|, 0
  {
    var request := events[0];
    match ParseInt(request.payload)
    case None => Negotiation(BadInteger, [], [], 1)
    case Some(c) =>
      if c != code then
        Then([Datagram("-1", request.peer)], [], 1, Negotiate(code, ports, next, events[1..]))
      else if next >= |ports| then
        Negotiation(BindError, [], [], 1)
      else
        Then([Datagram(IntToString(ports[next]), request.peer)], [Endpoint(next, ports[next])], 1,
             AwaitConfirmation(code, ports, next, events[1..]))
  }

  /** The negotiation state machine once the TCP socket `Endpoint(next,
      ports[next])` has been offered: a non-integer payload raises; the
      offered port is answered `ok` and the socket returned; any other
      number is answered `no` and the server waits for a request code
      again, leaving that socket behind. The answer goes to the sender of
      the confirmation, who need not be the one who sent the request. */
  function AwaitConfirmation(code: int, ports: seq<Port>, next: nat, events: seq<Datagram>): (n: Negotiation)
    requires next < |ports|
    ensures n.consumed <= |events|
    ensures n.outcome.Confirmed? ==> n.consumed >= 1
    decreases |events|
  {
    if events == [] then Negotiation(Blocked, [], [], 0)
    else
      var confirmation := events[0];
      match ParseInt(confirmation.payload)
      case None => Negotiation(BadInteger, [], [], 1)
      case Some(p) =>
        if p == ports[next] then
          Negotiation(Confirmed(Endpoint(next, ports[next])), [Datagram("ok", confirmation.peer)], [], 1)
        else
          Then([Datagram("no", confirmation.peer)], [], 1, Negotiate(code, ports, next + 1, events[1..]))
  }

  /** Appending a prefix to a prefix is appending their concatenation. */
  lemma ThenThen(sent: seq<Datagram>, created: seq<Endpoint>, consumed: nat,
                 sent': seq<Datagram>, created': seq<Endpoint>, consumed': nat, n: Negotiation)
    ensures Then(sent, created, consumed, Then(sent', created', consumed', n))
            == Then(sent + sent', created + created', consumed + consumed', n)
  {
    assert sent + (sent' + n.sent) == (sent + sent') + n.sent;
    assert created + (created' + n.created) == (created + created') + n.created;
  }

  /** A wrong request code is answered with exactly one `-1`, to its sender;
      no TCP socket is created and the server goes back to waiting for a
      request code, exactly as if that datagram had never arrived. */
  lemma WrongCodeAnswered(code: int, ports: seq<Port>, next: nat, events: seq<Datagram>)
    requires events != [] && ParseInt(events[0].payload).Some?
    requires ParseInt(events[0].payload).value != code
    ensures Negotiate(code, ports, next, events)
            == Then([Datagram("-1", events[0].peer)], [], 1, Negotiate(code, ports, next, events[1..]))
  {
  }

  /** The right request code creates exactly one fresh TCP socket and sends
      its port, in decimal, to the requester before any confirmation is
      read; with no further datagram, that offer is all that is sent. */
  lemma RightCodeOffered(code: int, ports: seq<Port>, next: nat, events: seq<Datagram>)
    requires events != [] && ParseInt(events[0].payload) == Some(code) && next < |ports|
    ensures Negotiate(code, ports, next, events)
            == Then([Datagram(IntToString(ports[next]), events[0].peer)], [Endpoint(next, ports[next])], 1,
                    AwaitConfirmation(code, ports, next, events[1..]))
    ensures |events| == 1 ==>
              Negotiate(code, ports, next, events)
              == Negotiation(Blocked, [Datagram(IntToString(ports[next]), events[0].peer)], [Endpoint(next, ports[next])], 1)
  {
  }

  /** The right code with no fresh port left: creating the TCP socket
      fails before anything is sent, and the negotiation ends there. */
  lemma NoPortNoOffer(code: int, ports: seq<Port>, next: nat, events: seq<Datagram>)
    requires events != [] && ParseInt(events[0].payload) == Some(code) && next >= |ports|
    ensures Negotiate(code, ports, next, events) == Negotiation(BindError, [], [], 1)
  {
  }

  /** A payload that is not an integer, whether it comes as a request code
      or as a confirmation, raises out of the negotiation: nothing is
      answered, and the one datagram is consumed. */
  lemma NonIntegerRaises(code: int, ports: seq<Port>, next: nat, events: seq<Datagram>)
    requires events != [] && ParseInt(events[0].payload) == None
    ensures Negotiate(code, ports, next, events) == Negotiation(BadInteger, [], [], 1)
    ensures next < |ports| ==> AwaitConfirmation(code, ports, next, events) == Negotiation(BadInteger, [], [], 1)
  {
  }

  /** After an offer, the echo of the offered port is answered `ok` to its
      sender and the offered socket is returned: two datagrams consumed,
      two answers, one socket created. */
  lemma OfferAccepted(code: int, ports: seq<Port>, next: nat, events: seq<Datagram>)
    requires |events| >= 2 && ParseInt(events[0].payload) == Some(code) && next < |ports|
    requires ParseInt(events[1].payload) == Some(ports[next])
    ensures Negotiate(code, ports, next, events)
            == Negotiation(Confirmed(Endpoint(next, ports[next])),
                           [Datagram(IntToString(ports[next]), events[0].peer), Datagram("ok", events[1].peer)],
                           [Endpoint(next, ports[next])], 2)
  {
    RightCodeOffered(code, ports, next, events);
    ConfirmationDecides(code, ports, next, events[1..], ports[next]);
  }

  /** After an offer, any other integer is answered `no` and the server
      waits for a request code again, with the next fresh port. */
  lemma OfferRejected(code: int, ports: seq<Port>, next: nat, events: seq<Datagram>, p: int)
    requires |events| >= 2 && ParseInt(events[0].payload) == Some(code) && next < |ports|
    requires ParseInt(events[1].payload) == Some(p) && p != ports[next]
    ensures Negotiate(code, ports, next, events)
            == Then([Datagram(IntToString(ports[next]), events[0].peer), Datagram("no", events[1].peer)],
                    [Endpoint(next, ports[next])], 2, Negotiate(code, ports, next + 1, events[2..]))
  {
    RightCodeOffered(code, ports, next, events);
    ConfirmationDecides(code, ports, next, events[1..], p);
    assert events[1..][1..] == events[2..];
    ThenThen([Datagram(IntToString(ports[next]), events[0].peer)], [Endpoint(next, ports[next])], 1,
             [Datagram("no", events[1].peer)], [], 1, Negotiate(code, ports, next + 1, events[2..]));
  }

  /** After an offer, a confirmation that is not an integer raises, with
      the offer sent and the socket created. */
  lemma OfferRaises(code: int, ports: seq<Port>, next: nat, events: seq<Datagram>)
    requires |events| >= 2 && ParseInt(events[0].payload) == Some(code) && next < |ports|
    requires ParseInt(events[1].payload) == None
    ensures Negotiate(code, ports, next, events)
            == Negotiation(BadInteger, [Datagram(IntToString(ports[next]), events[0].peer)], [Endpoint(next, ports[next])], 2)
  {
    RightCodeOffered(code, ports, next, events);
    NonIntegerRaises(code, ports, next, events[1..]);
  }

  /** The confirmation decides: the offered port is answered `ok` and the
      socket returned, with nothing further read; any other number is
      answered `no` and a fresh round starts at the next datagram, with the
      next fresh port. Both answers go to the sender of the confirmation. */
  lemma ConfirmationDecides(code: int, ports: seq<Port>, next: nat, events: seq<Datagram>, p: int)
    requires events != [] && next < |ports| && ParseInt(events[0].payload) == Some(p)
    ensures p == ports[next] ==>
              AwaitConfirmation(code, ports, next, events)
              == Negotiation(Confirmed(Endpoint(next, ports[next])), [Datagram("ok", events[0].peer)], [], 1)
    ensures p != ports[next] ==>
              AwaitConfirmation(code, ports, next, events)
              == Then([Datagram("no", events[0].peer)], [], 1, Negotiate(code, ports, next + 1, events[1..]))
  {
  }


  /** The loop of `ServerUdpNegotiation` waits for a request code at
      datagram `pos`, having sent `sent` and created `created`; what the
      whole negotiation `goal` does is that, followed by `Negotiate` on the
      datagrams not yet read. */
  ghost predicate Listening(code: int, ports: seq<Port>, nextPort: nat, events: seq<Datagram>, pos: nat,
                            sent: seq<Datagram>, created: seq<Endpoint>, goal: Negotiation)
  {
    pos <= |events| && goal == Then(sent, created, pos, Negotiate(code, ports, nextPort, events[pos..]))
  }

  /** The same, once the port of socket `nextPort` has been offered and the
      loop waits for its confirmation at datagram `pos`. */
  ghost predicate Offered(code: int, ports: seq<Port>, nextPort: nat, events: seq<Datagram>, pos: nat,
                          sent: seq<Datagram>, created: seq<Endpoint>, goal: Negotiation)
  {
    pos <= |events| && nextPort < |ports| && goal == Then(sent, created, pos, AwaitConfirmation(code, ports, nextPort, events[pos..]))
  }

  lemma WrongCodeStep(code: int, ports: seq<Port>, nextPort: nat, events: seq<Datagram>, pos: nat,
                      sent: seq<Datagram>, created: seq<Endpoint>, goal: Negotiation)
    requires pos < |events| && ParseInt(events[pos].payload).Some? && ParseInt(events[pos].payload).value != code
    requires Listening(code, ports, nextPort, events, pos, sent, created, goal)
    ensures Listening(code, ports, nextPort, events, pos + 1, sent + [Datagram("-1", events[pos].peer)], created, goal)
  {
    assert events[pos..][1..] == events[pos + 1..];
    WrongCodeAnswered(code, ports, nextPort, events[pos..]);
    ThenThen(sent, created, pos, [Datagram("-1", events[pos].peer)], [], 1, Negotiate(code, ports, nextPort, events[pos + 1..]));
    assert created + [] == created;
  }

  lemma OfferStep(code: int, ports: seq<Port>, nextPort: nat, events: seq<Datagram>, pos: nat,
                  sent: seq<Datagram>, created: seq<Endpoint>, goal: Negotiation)
    requires pos < |events| && ParseInt(events[pos].payload) == Some(code) && nextPort < |ports|
    requires Listening(code, ports, nextPort, events, pos, sent, created, goal)
    ensures Offered(code, ports, nextPort, events, pos + 1, sent + [Datagram(IntToString(ports[nextPort]), events[pos].peer)],
                    created + [Endpoint(nextPort, ports[nextPort])], goal)
  {
    assert events[pos..][1..] == events[pos + 1..];
    RightCodeOffered(code, ports, nextPort, events[pos..]);
    ThenThen(sent, created, pos, [Datagram(IntToString(ports[nextPort]), events[pos].peer)], [Endpoint(nextPort, ports[nextPort])], 1,
             AwaitConfirmation(code, ports, nextPort, events[pos + 1..]));
  }

  lemma RejectStep(code: int, ports: seq<Port>, nextPort: nat, events: seq<Datagram>, pos: nat,
                   sent: seq<Datagram>, created: seq<Endpoint>, goal: Negotiation)
    requires pos < |events| && nextPort < |ports|
    requires ParseInt(events[pos].payload).Some? && ParseInt(events[pos].payload).value != ports[nextPort]
    requires Offered(code, ports, nextPort, events, pos, sent, created, goal)
    ensures Listening(code, ports, nextPort + 1, events, pos + 1, sent + [Datagram("no", events[pos].peer)], created, goal)
  {
    assert events[pos..][1..] == events[pos + 1..];
    ConfirmationDecides(code, ports, nextPort, events[pos..], ParseInt(events[pos].payload).value);
    ThenThen(sent, created, pos, [Datagram("no", events[pos].peer)], [], 1, Negotiate(code, ports, nextPort + 1, events[pos + 1..]));
    assert created + [] == created;
  }

  lemma ListeningBlocked(code: int, ports: seq<Port>, nextPort: nat, events: seq<Datagram>, pos: nat,
                         sent: seq<Datagram>, created: seq<Endpoint>, goal: Negotiation)
    requires pos == |events|
    requires Listening(code, ports, nextPort, events, pos, sent, created, goal)
    ensures goal == Negotiation(Blocked, sent, created, pos)
  {
    assert sent + [] == sent && created + [] == created;
  }

  lemma ListeningRaises(code: int, ports: seq<Port>, nextPort: nat, events: seq<Datagram>, pos: nat,
                        sent: seq<Datagram>, created: seq<Endpoint>, goal: Negotiation)
    requires pos < |events| && ParseInt(events[pos].payload).None?
    requires Listening(code, ports, nextPort, events, pos, sent, created, goal)
    ensures goal == Negotiation(BadInteger, sent, created, pos + 1)
  {
    NonIntegerRaises(code, ports, nextPort, events[pos..]);
    assert sent + [] == sent && created + [] == created;
  }

  lemma ListeningNoPort(code: int, ports: seq<Port>, nextPort: nat, events: seq<Datagram>, pos: nat,
                        sent: seq<Datagram>, created: seq<Endpoint>, goal: Negotiation)
    requires pos < |events| && ParseInt(events[pos].payload) == Some(code) && nextPort >= |ports|
    requires Listening(code, ports, nextPort, events, pos, sent, created, goal)
    ensures goal == Negotiation(BindError, sent, created, pos + 1)
  {
    NoPortNoOffer(code, ports, nextPort, events[pos..]);
    assert sent + [] == sent && created + [] == created;
  }

  lemma OfferedBlocked(code: int, ports: seq<Port>, nextPort: nat, events: seq<Datagram>, pos: nat,
                       sent: seq<Datagram>, created: seq<Endpoint>, goal: Negotiation)
    requires pos == |events| && nextPort < |ports|
    requires Offered(code, ports, nextPort, events, pos, sent, created, goal)
    ensures goal == Negotiation(Blocked, sent, created, pos)
  {
    assert sent + [] == sent && created + [] == created;
  }

  lemma OfferedRaises(code: int, ports: seq<Port>, nextPort: nat, events: seq<Datagram>, pos: nat,
                      sent: seq<Datagram>, created: seq<Endpoint>, goal: Negotiation)
    requires pos < |events| && nextPort < |ports| && ParseInt(events[pos].payload).None?
    requires Offered(code, ports, nextPort, events, pos, sent, created, goal)
    ensures goal == Negotiation(BadInteger, sent, created, pos + 1)
  {
    assert sent + [] == sent && created + [] == created;
  }

  lemma OfferedConfirmed(code: int, ports: seq<Port>, nextPort: nat, events: seq<Datagram>, pos: nat,
                         sent: seq<Datagram>, created: seq<Endpoint>, goal: Negotiation)
    requires pos < |events| && nextPort < |ports| && ParseInt(events[pos].payload) == Some(ports[nextPort])
    requires Offered(code, ports, nextPort, events, pos, sent, created, goal)
    ensures goal == Negotiation(Confirmed(Endpoint(nextPort, ports[nextPort])), sent + [Datagram("ok", events[pos].peer)], created, pos + 1)
  {
    assert created + [] == created;
  }

  method ServerUdpNegotiation(code: int, ports: seq<Port>, next: nat, events: seq<Datagram>) returns (n: Negotiation)
    ensures n == Negotiate(code, ports, next, events)
  {
    var pos, nextPort := 0, next;
    var sent: seq<Datagram>, created: seq<Endpoint> := [], [];
    ghost var goal := Negotiate(code, ports, next, events);
    assert events[0..] == events;
    while true
      invariant nextPort == next + |created|
      invariant Listening(code, ports, nextPort, events, pos, sent, created, goal)
      decreases |events| - pos
    {
      if pos == |events| {
        ListeningBlocked(code, ports, nextPort, events, pos, sent, created, goal);
        return Negotiation(Blocked, sent, created, pos);
      }
      var request := events[pos];
      var clientReqCode := ParseInt(request.payload);
      if clientReqCode.None? {
        ListeningRaises(code, ports, nextPort, events, pos, sent, created, goal);
        return Negotiation(BadInteger, sent, created, pos + 1);
      }
      var clientAddress := request.peer;
      if clientReqCode.value == code {
        if nextPort >= |ports| {
          ListeningNoPort(code, ports, nextPort, events, pos, sent, created, goal);
          return Negotiation(BindError, sent, created, pos + 1);
        }
        var rSocket := Endpoint(nextPort, ports[nextPort]);
        OfferStep(code, ports, nextPort, events, pos, sent, created, goal);
        created := created + [rSocket];
        sent := sent + [Datagram(IntToString(rSocket.port), clientAddress)];
        pos := pos + 1;
        if pos == |events| {
          OfferedBlocked(code, ports, nextPort, events, pos, sent, created, goal);
          return Negotiation(Blocked, sent, created, pos);
        }
        var confirmation := events[pos];
        var clientRPort := ParseInt(confirmation.payload);
        if clientRPort.None? {
          OfferedRaises(code, ports, nextPort, events, pos, sent, created, goal);
          return Negotiation(BadInteger, sent, created, pos + 1);
        }
        clientAddress := confirmation.peer;
        if clientRPort.value == rSocket.port {
          OfferedConfirmed(code, ports, nextPort, events, pos, sent, created, goal);
          sent := sent + [Datagram("ok", clientAddress)];
          return Negotiation(Confirmed(rSocket), sent, created, pos + 1);
        } else {
          RejectStep(code, ports, nextPort, events, pos, sent, created, goal);
          sent := sent + [Datagram("no", clientAddress)];
          nextPort := nextPort + 1;
          pos := pos + 1;
        }
      } else {
        WrongCodeStep(code, ports, nextPort, events, pos, sent, created, goal);
        sent := sent + [Datagram("-1", clientAddress)];
        pos := pos + 1;
      }
    }
  }

  /** The server sends exactly one answer per datagram it reads, to that
      datagram's sender, except for a datagram that makes it raise or fail
      to bind, which gets none. */
  ghost predicate AnswersEachDatagram(events: seq<Datagram>, n: Negotiation) {
    && n.consumed <= |events|
    && |n.sent| == (if n.outcome.BadInteger? || n.outcome.BindError? then n.consumed - 1 else n.consumed)
    && forall k :: 0 <= k < |n.sent| ==> n.sent[k].peer == events[k].peer
  }

  lemma ThenAnswers(events: seq<Datagram>, sent: seq<Datagram>, created: seq<Endpoint>, k: nat, n: Negotiation)
    requires k <= |events| && |sent| == k
    requires forall j :: 0 <= j < k ==> sent[j].peer == events[j].peer
    requires AnswersEachDatagram(events[k..], n)
    ensures AnswersEachDatagram(events, Then(sent, created, k, n))
  {
    var r := Then(sent, created, k, n);
    forall j | 0 <= j < |r.sent|
      ensures r.sent[j].peer == events[j].peer
    {
      if j >= k {
        assert r.sent[j] == n.sent[j - k] && events[k..][j - k] == events[j];
      }
    }
  }

  /** Every answer of a negotiation goes to the sender of the datagram just
      read: the `-1` and the offer to the requester, `ok` and `no` to the
      sender of the confirmation. */
  lemma {:induction false} RepliesGoToSenders(code: int, ports: seq<Port>, next: nat, events: seq<Datagram>)
    ensures AnswersEachDatagram(events, Negotiate(code, ports, next, events))
    decreases |events|
  {
    if events == [] || ParseInt(events[0].payload).None? {
      return;
    }
    var c := ParseInt(events[0].payload).value;
    if c != code {
      RepliesGoToSenders(code, ports, next, events[1..]);
      ThenAnswers(events, [Datagram("-1", events[0].peer)], [], 1, Negotiate(code, ports, next, events[1..]));
    } else if next < |ports| {
      var offer := Datagram(IntToString(ports[next]), events[0].peer);
      var endpoint := Endpoint(next, ports[next]);
      RightCodeOffered(code, ports, next, events);
      if |events| == 1 || ParseInt(events[1].payload).None? {
        return;
      }
      var p := ParseInt(events[1].payload).value;
      ConfirmationDecides(code, ports, next, events[1..], p);
      if p != ports[next] {
        var rest := Negotiate(code, ports, next + 1, events[2..]);
        assert events[1..][1..] == events[2..];
        RepliesGoToSenders(code, ports, next + 1, events[2..]);
        ThenThen([offer], [endpoint], 1, [Datagram("no", events[1].peer)], [], 1, rest);
        ThenAnswers(events, [offer, Datagram("no", events[1].peer)], [endpoint], 2, rest);
      }
    }
  }

  /** What a returned socket implies: the last two datagrams read were the
      right request code and its own port, the last two answers were the
      offer of that port to the requester and `ok` to the confirmer, `ok`
      was sent nowhere before, and the socket is the last one created. */
  ghost predicate ConfirmedAfterMatch(code: int, events: seq<Datagram>, n: Negotiation) {
    n.outcome.Confirmed? ==>
      var endpoint, m := n.outcome.endpoint, n.consumed;
      && 2 <= m <= |events| && |n.sent| == m && n.created != []
      && endpoint == n.created[|n.created| - 1]
      && ParseInt(events[m - 2].payload) == Some(code)
      && ParseInt(events[m - 1].payload) == Some(endpoint.port)
      && n.sent[m - 2] == Datagram(IntToString(endpoint.port), events[m - 2].peer)
      && n.sent[m - 1] == Datagram("ok", events[m - 1].peer)
      && forall k :: 0 <= k < m - 1 ==> n.sent[k].payload != "ok"
  }

  lemma ThenConfirmed(code: int, events: seq<Datagram>, sent: seq<Datagram>, created: seq<Endpoint>, k: nat, n: Negotiation)
    requires k <= |events| && |sent| == k
    requires forall j :: 0 <= j < k ==> sent[j].payload != "ok"
    requires ConfirmedAfterMatch(code, events[k..], n)
    ensures ConfirmedAfterMatch(code, events, Then(sent, created, k, n))
  {
    var r := Then(sent, created, k, n);
    if r.outcome.Confirmed? {
      var m := n.consumed;
      assert events[k..][m - 2] == events[k + m - 2] && events[k..][m - 1] == events[k + m - 1];
      assert r.sent[k + m - 2] == n.sent[m - 2] && r.sent[k + m - 1] == n.sent[m - 1];
      assert r.created[|r.created| - 1] == n.created[|n.created| - 1];
      forall j | 0 <= j < k + m - 1
        ensures r.sent[j].payload != "ok"
      {
        if j >= k {
          assert r.sent[j] == n.sent[j - k];
        }
      }
    }
  }

  /** The negotiation returns a socket only when a datagram carrying the
      right request code was answered with that socket's port and the very
      next datagram confirmed that port; `ok`, sent to the confirmer, is the
      last answer and the only `ok`. */
  lemma {:induction false} ConfirmedOnlyAfterMatch(code: int, ports: seq<Port>, next: nat, events: seq<Datagram>)
    ensures ConfirmedAfterMatch(code, events, Negotiate(code, ports, next, events))
    decreases |events|, 1
  {
    if events == [] {
      return;
    }
    match ParseInt(events[0].payload)
    case None =>
      NonIntegerRaises(code, ports, next, events);
    case Some(c) =>
      if c != code {
        WrongCodeAnswered(code, ports, next, events);
        ConfirmedOnlyAfterMatch(code, ports, next, events[1..]);
        ThenConfirmed(code, events, [Datagram("-1", events[0].peer)], [], 1, Negotiate(code, ports, next, events[1..]));
      } else if next >= |ports| {
        NoPortNoOffer(code, ports, next, events);
      } else {
        OfferConfirmedAfterMatch(code, ports, next, events);
      }
  }

  /** `ConfirmedOnlyAfterMatch`, once the right code has been read and its
      port offered. */
  lemma {:induction false} OfferConfirmedAfterMatch(code: int, ports: seq<Port>, next: nat, events: seq<Datagram>)
    requires events != [] && ParseInt(events[0].payload) == Some(code) && next < |ports|
    ensures ConfirmedAfterMatch(code, events, Negotiate(code, ports, next, events))
    decreases |events|, 0
  {
    var offer := Datagram(IntToString(ports[next]), events[0].peer);
    var endpoint := Endpoint(next, ports[next]);
    if |events| == 1 {
      RightCodeOffered(code, ports, next, events);
      return;
    }
    match ParseInt(events[1].payload)
    case None =>
      OfferRaises(code, ports, next, events);
    case Some(p) =>
      if p == ports[next] {
        OfferAccepted(code, ports, next, events);
        IntToStringNotWord(ports[next]);
      } else {
        OfferRejected(code, ports, next, events, p);
        IntToStringNotWord(ports[next]);
        ConfirmedOnlyAfterMatch(code, ports, next + 1, events[2..]);
        ThenConfirmed(code, events, [offer, Datagram("no", events[1].peer)], [endpoint], 2,
                      Negotiate(code, ports, next + 1, events[2..]));
      }
  }

  /** A client that never presents the right code gets nothing but `-1`:
      no TCP socket is created and none is returned. */
  lemma {:induction false} NoEndpointWithoutCode(code: int, ports: seq<Port>, next: nat, events: seq<Datagram>)
    requires forall k :: 0 <= k < |events| ==> ParseInt(events[k].payload) != Some(code)
    ensures var n := Negotiate(code, ports, next, events);
      && n.created == [] && !n.outcome.Confirmed?
      && forall k :: 0 <= k < |n.sent| ==> n.sent[k].payload == "-1"
    decreases |events|
  {
    if events != [] && ParseInt(events[0].payload).Some? {
      assert ParseInt(events[0].payload) != Some(code);
      NoEndpointWithoutCode(code, ports, next, events[1..]);
    }
  }

  /** `created` are the sockets numbered `next`, `next + 1`, ... bound to
      the ports at those positions of the supply. */
  ghost predicate NumberedFrom(ports: seq<Port>, next: nat, created: seq<Endpoint>) {
    forall i :: 0 <= i < |created| ==>
      created[i].id == next + i && created[i].id < |ports| && created[i].port == ports[created[i].id]
  }

  lemma NumberedCons(ports: seq<Port>, next: nat, rest: seq<Endpoint>)
    requires next < |ports| && NumberedFrom(ports, next + 1, rest)
    ensures NumberedFrom(ports, next, [Endpoint(next, ports[next])] + rest)
  {
    var created := [Endpoint(next, ports[next])] + rest;
    forall i | 0 <= i < |created|
      ensures created[i].id == next + i && created[i].id < |ports| && created[i].port == ports[created[i].id]
    {
      if i > 0 {
        assert created[i] == rest[i - 1];
      }
    }
  }

  /** The sockets a negotiation creates are fresh, one per right request
      code, numbered on from `next` and bound to the next ports of the
      supply. */
  lemma {:induction false} FreshEndpoints(code: int, ports: seq<Port>, next: nat, events: seq<Datagram>)
    ensures NumberedFrom(ports, next, Negotiate(code, ports, next, events).created)
    decreases |events|
  {
    if events == [] || ParseInt(events[0].payload).None? {
      return;
    }
    var c := ParseInt(events[0].payload).value;
    if c != code {
      FreshEndpoints(code, ports, next, events[1..]);
      WrongCodeAnswered(code, ports, next, events);
      assert Negotiate(code, ports, next, events).created == Negotiate(code, ports, next, events[1..]).created;
    } else if next < |ports| && |events| >= 2 && ParseInt(events[1].payload).Some? {
      var p := ParseInt(events[1].payload).value;
      RightCodeOffered(code, ports, next, events);
      ConfirmationDecides(code, ports, next, events[1..], p);
      if p != ports[next] {
        assert events[1..][1..] == events[2..];
        FreshEndpoints(code, ports, next + 1, events[2..]);
        NumberedCons(ports, next, Negotiate(code, ports, next + 1, events[2..]).created);
      }
    }
  }

  /** Python's `s[::-1]`: the characters of `s` in the opposite order. */
  function Reverse(s: string): (r: string)
    ensures |r| == |s|
    ensures s != [] ==> r[0] == s[|s| - 1] && r[|r| - 1] == s[0]
    decreases |s|
  {
    if s == [] then [] else Reverse(s[1..]) + [s[0]]
  }

  /** The reversal has the same length, and position `i` of it holds the
      character at the mirror position of `s`. */
  lemma {:induction false} ReverseMirrors(s: string)
    ensures |Reverse(s)| == |s|
    ensures forall i :: 0 <= i < |s| ==> Reverse(s)[i] == s[|s| - 1 - i]
    decreases |s|
  {
    if s != [] {
      ReverseMirrors(s[1..]);
    }
  }

  /** Reversing twice gives back the original message. */
  lemma ReverseInvolutive(s: string)
    ensures Reverse(Reverse(s)) == s
  {
    ReverseMirrors(s);
    ReverseMirrors(Reverse(s));
  }

  /** Example reversals of a message. */
  lemma ReverseExamples()
    ensures Reverse("hello") == "olleh"
    ensures Reverse("") == ""
    ensures Reverse("aabb") == "bbaa"
    ensures Reverse("systems") == "smetsys"
  {
  }

  /** One TCP transaction on the confirmed socket: the message read from
      the accepted connection and the reply written back before both the
      connection and the socket are closed. */
  datatype Transaction = Transaction(endpoint: Endpoint, received: string, reply: string)

  /** The transaction on `endpoint` when the client's message is `received`:
      the reply is the message reversed, and both the accepted connection
      and the socket are closed afterwards. */
  function ServerTcpTransaction(endpoint: Endpoint, received: string): (t: Transaction)
    ensures t.endpoint == endpoint && t.received == received
    ensures |t.reply| == |received| && Reverse(t.reply) == received
  {
    ReverseInvolutive(received);
    Transaction(endpoint, received, Reverse(received))
  }

  /** Why the server's main loop stops making progress. */
  datatype Halt =
    | NegotiationHalted(outcome: NegOutcome)  // a negotiation did not return
    | AcceptBlocked                           // no message ever arrives on the confirmed socket

  /** The run of the main loop: every negotiation in order, every
      transaction in order, the TCP sockets closed in order, and why the loop
      went no further. */
  datatype Service = Service(sessions: seq<Negotiation>, transactions: seq<Transaction>, closed: seq<Endpoint>, halt: Halt)

  /** `s` preceded by negotiations, transactions and closings already done. */
  function Resume(sessions: seq<Negotiation>, transactions: seq<Transaction>, closed: seq<Endpoint>, s: Service): Service {
    Service(sessions + s.sessions, transactions + s.transactions, closed + s.closed, s.halt)
  }

  /** The main loop: negotiate, then run one transaction on the socket the
      negotiation returned, closing it, and repeat. `messages` are the
      messages read on the successive transaction sockets. */
  function Serve(code: int, ports: seq<Port>, next: nat, events: seq<Datagram>, messages: seq<string>): Service
    decreases |events|
  {
    var n := Negotiate(code, ports, next, events);
    if !n.outcome.Confirmed? then Service([n], [], [], NegotiationHalted(n.outcome))
    else if messages == [] then Service([n], [], [], AcceptBlocked)
    else
      var t := ServerTcpTransaction(n.outcome.endpoint, messages[0]);
      Resume([n], [t], [t.endpoint],
             Serve(code, ports, next + |n.created|, events[n.consumed..], messages[1..]))
  }

  /** The main loop alternates: each negotiation that returns a socket is
      followed by exactly one transaction on that socket, which reads the
      next message, answers it reversed and closes the socket; the loop stops
      at the first negotiation that does not return, or when no message
      arrives on the socket just confirmed. */
  ghost predicate Alternates(messages: seq<string>, s: Service) {
    && |s.sessions| == |s.transactions| + 1
    && |s.closed| == |s.transactions| <= |messages|
    && (forall i :: 0 <= i < |s.transactions| ==>
          && s.sessions[i].outcome == Confirmed(s.transactions[i].endpoint)
          && s.transactions[i].received == messages[i]
          && s.transactions[i].reply == Reverse(messages[i])
          && s.closed[i] == s.transactions[i].endpoint)
    && (s.halt.NegotiationHalted? ==>
          !s.halt.outcome.Confirmed? && s.sessions[|s.sessions| - 1].outcome == s.halt.outcome)
    && (s.halt.AcceptBlocked? ==>
          s.sessions[|s.sessions| - 1].outcome.Confirmed? && |s.transactions| == |messages|)
  }

  lemma {:induction false} ServeAlternates(code: int, ports: seq<Port>, next: nat, events: seq<Datagram>, messages: seq<string>)
    ensures Alternates(messages, Serve(code, ports, next, events, messages))
    decreases |events|
  {
    var n := Negotiate(code, ports, next, events);
    if n.outcome.Confirmed? && messages != [] {
      var t := ServerTcpTransaction(n.outcome.endpoint, messages[0]);
      var rest := Serve(code, ports, next + |n.created|, events[n.consumed..], messages[1..]);
      ServeAlternates(code, ports, next + |n.created|, events[n.consumed..], messages[1..]);
      var s := Serve(code, ports, next, events, messages);
      assert s == Resume([n], [t], [t.endpoint], rest);
      forall i | 0 <= i < |s.transactions|
        ensures && s.sessions[i].outcome == Confirmed(s.transactions[i].endpoint)
                && s.transactions[i].received == messages[i]
                && s.transactions[i].reply == Reverse(messages[i])
                && s.closed[i] == s.transactions[i].endpoint
      {
        if i > 0 {
          assert s.sessions[i] == rest.sessions[i - 1] && s.transactions[i] == rest.transactions[i - 1];
          assert s.closed[i] == rest.closed[i - 1] && messages[1..][i - 1] == messages[i];
        }
      }
      assert s.sessions[|s.sessions| - 1] == rest.sessions[|rest.sessions| - 1];
    }
  }

  /** Every TCP socket created over the whole run, in order. */
  function AllCreated(sessions: seq<Negotiation>): seq<Endpoint>
    decreases |sessions|
  {
    if sessions == [] then [] else sessions[0].created + AllCreated(sessions[1..])
  }

  lemma NumberedAppend(ports: seq<Port>, next: nat, xs: seq<Endpoint>, ys: seq<Endpoint>)
    requires NumberedFrom(ports, next, xs) && NumberedFrom(ports, next + |xs|, ys)
    ensures NumberedFrom(ports, next, xs + ys)
  {
    var zs := xs + ys;
    forall i | 0 <= i < |zs|
      ensures zs[i].id == next + i && zs[i].id < |ports| && zs[i].port == ports[zs[i].id]
    {
      if i >= |xs| {
        assert zs[i] == ys[i - |xs|];
      }
    }
  }

  /** No TCP socket is ever reused: across all sessions, the sockets
      created are numbered on from `next` without gap or repetition, each
      bound to the next port of the supply. A socket offered and then
      rejected is therefore never the one a later transaction uses or
      closes. */
  lemma {:induction false} SocketsNeverReused(code: int, ports: seq<Port>, next: nat, events: seq<Datagram>, messages: seq<string>)
    ensures NumberedFrom(ports, next, AllCreated(Serve(code, ports, next, events, messages).sessions))
    decreases |events|
  {
    var n := Negotiate(code, ports, next, events);
    var s := Serve(code, ports, next, events, messages);
    FreshEndpoints(code, ports, next, events);
    if n.outcome.Confirmed? && messages != [] {
      var rest := Serve(code, ports, next + |n.created|, events[n.consumed..], messages[1..]);
      SocketsNeverReused(code, ports, next + |n.created|, events[n.consumed..], messages[1..]);
      assert s.sessions == [n] + rest.sessions;
      assert s.sessions[1..] == rest.sessions;
      assert AllCreated(s.sessions) == n.created + AllCreated(rest.sessions);
      NumberedAppend(ports, next, n.created, AllCreated(rest.sessions));
    } else {
      assert s.sessions == [n] && s.sessions[1..] == [];
      assert AllCreated(s.sessions) == n.created + [];
    }
  }

  /** The request code from the server's command line (`argv[0]` is the
      program name): missing, or not an integer, is an error. */
  function ParseServerArgs(argv: seq<string>): (r: Result<int, ArgError>)
    ensures r.Ok? ==> |argv| >= 2 && ParseInt(argv[1]) == Some(r.value)
  {
    if |argv| < 2 then Err(MissingArgument)
    else match ParseInt(argv[1])
      case None => Err(NotInteger)
      case Some(code) => Ok(code)
  }

  /** The request code is missing exactly when the command line has no
      argument (the IndexError), not an integer exactly when the argument
      is there and `int()` rejects it (the ValueError), and otherwise the
      code is that integer; arguments after the first are ignored. */
  lemma ServerArgsAccepted(argv: seq<string>)
    ensures ParseServerArgs(argv) == Err(MissingArgument) <==> |argv| < 2
    ensures ParseServerArgs(argv) == Err(NotInteger) <==> |argv| >= 2 && ParseInt(argv[1]).None?
    ensures ParseServerArgs(argv).Ok? <==> |argv| >= 2 && ParseInt(argv[1]).Some?
    ensures |argv| >= 2 ==> ParseServerArgs(argv) == ParseServerArgs(argv[..2])
  {
  }

  /** How the server process ends up: it exits before creating any socket,
      or it serves. */
  datatype ServerExit = ConfigExit(status: int, error: ArgError) | Served(service: Service)

  /** `rest` is what remains of the main loop's run once `pos` datagrams
      and `taken` messages are used up and `next` sockets created. */
  ghost predicate Remains(code: int, ports: seq<Port>, next: nat, events: seq<Datagram>, messages: seq<string>,
                          pos: nat, taken: nat, rest: Service)
  {
    pos <= |events| && taken <= |messages| && rest == Serve(code, ports, next, events[pos..], messages[taken..])
  }

  /** The loop is about to take its turn: `rest` remains to be run and
      `n` is the negotiation that begins it. */
  ghost predicate TurnAt(code: int, ports: seq<Port>, next: nat, events: seq<Datagram>, messages: seq<string>,
                         pos: nat, taken: nat, rest: Service, n: Negotiation)
  {
    Remains(code, ports, next, events, messages, pos, taken, rest) && n == Negotiate(code, ports, next, events[pos..])
  }

  /** A turn whose negotiation does not return a socket ends the run. */
  lemma HaltTurn(code: int, ports: seq<Port>, next: nat, events: seq<Datagram>, messages: seq<string>,
                 pos: nat, taken: nat, rest: Service, n: Negotiation,
                 sessions: seq<Negotiation>, transactions: seq<Transaction>, closed: seq<Endpoint>, goal: Service)
    requires TurnAt(code, ports, next, events, messages, pos, taken, rest, n) && !n.outcome.Confirmed?
    requires goal == Resume(sessions, transactions, closed, rest)
    ensures goal == Service(sessions + [n], transactions, closed, NegotiationHalted(n.outcome))
  {
    assert transactions + [] == transactions && closed + [] == closed;
  }

  /** A turn whose socket receives no message ends the run. */
  lemma AcceptTurn(code: int, ports: seq<Port>, next: nat, events: seq<Datagram>, messages: seq<string>,
                   pos: nat, taken: nat, rest: Service, n: Negotiation,
                   sessions: seq<Negotiation>, transactions: seq<Transaction>, closed: seq<Endpoint>, goal: Service)
    requires TurnAt(code, ports, next, events, messages, pos, taken, rest, n) && n.outcome.Confirmed?
    requires taken == |messages|
    requires goal == Resume(sessions, transactions, closed, rest)
    ensures goal == Service(sessions + [n], transactions, closed, AcceptBlocked)
  {
    assert messages[taken..] == [];
    assert transactions + [] == transactions && closed + [] == closed;
  }

  /** A turn with a confirmed socket and a message runs the transaction and
      leaves the rest of the run from the next datagram, message and port. */
  lemma ContinueTurn(code: int, ports: seq<Port>, next: nat, events: seq<Datagram>, messages: seq<string>,
                     pos: nat, taken: nat, rest: Service, n: Negotiation,
                     sessions: seq<Negotiation>, transactions: seq<Transaction>, closed: seq<Endpoint>, goal: Service)
    returns (rest': Service)
    requires TurnAt(code, ports, next, events, messages, pos, taken, rest, n) && n.outcome.Confirmed?
    requires taken < |messages|
    requires goal == Resume(sessions, transactions, closed, rest)
    ensures Remains(code, ports, next + |n.created|, events, messages, pos + n.consumed, taken + 1, rest')
    ensures goal == Resume(sessions + [n], transactions + [ServerTcpTransaction(n.outcome.endpoint, messages[taken])],
                           closed + [n.outcome.endpoint], rest')
  {
    assert events[pos..][n.consumed..] == events[pos + n.consumed..];
    assert messages[taken..][1..] == messages[taken + 1..];
    rest' := Serve(code, ports, next + |n.created|, events[pos + n.consumed..], messages[taken + 1..]);
    var t := ServerTcpTransaction(n.outcome.endpoint, messages[taken]);
    assert rest == Resume([n], [t], [n.outcome.endpoint], rest');
    assert sessions + ([n] + rest'.sessions) == (sessions + [n]) + rest'.sessions;
    assert transactions + ([t] + rest'.transactions) == (transactions + [t]) + rest'.transactions;
    assert closed + ([n.outcome.endpoint] + rest'.closed) == (closed + [n.outcome.endpoint]) + rest'.closed;
  }

  /** The server's main loop, after the request code is known: alternate
      negotiation and transaction for as long as the inputs allow. */
  method ServeForever(code: int, ports: seq<Port>, events: seq<Datagram>, messages: seq<string>)
    returns (s: Service)
    ensures s == Serve(code, ports, 0, events, messages)
  {
    var pos: nat, next: nat, taken: nat := 0, 0, 0;
    var sessions: seq<Negotiation>, transactions: seq<Transaction>, closed: seq<Endpoint> := [], [], [];
    ghost var goal := Serve(code, ports, 0, events, messages);
    ghost var rest := goal;
    assert events[0..] == events && messages[0..] == messages;
    assert goal == Resume([], [], [], rest);
    while true
      invariant Remains(code, ports, next, events, messages, pos, taken, rest)
      invariant goal == Resume(sessions, transactions, closed, rest)
      decreases |events| - pos
    {
      var n := ServerUdpNegotiation(code, ports, next, events[pos..]);
      assert TurnAt(code, ports, next, events, messages, pos, taken, rest, n);
      if !n.outcome.Confirmed? {
        HaltTurn(code, ports, next, events, messages, pos, taken, rest, n, sessions, transactions, closed, goal);
        return Service(sessions + [n], transactions, closed, NegotiationHalted(n.outcome));
      }
      if taken == |messages| {
        AcceptTurn(code, ports, next, events, messages, pos, taken, rest, n, sessions, transactions, closed, goal);
        return Service(sessions + [n], transactions, closed, AcceptBlocked);
      }
      var t := ServerTcpTransaction(n.outcome.endpoint, messages[taken]);
      rest := ContinueTurn(code, ports, next, events, messages, pos, taken, rest, n, sessions, transactions, closed, goal);
      sessions, transactions, closed := sessions + [n], transactions + [t], closed + [n.outcome.endpoint];
      pos, next, taken := pos + n.consumed, next + |n.created|, taken + 1;
    }
  }

  /** The server's entry point: read the request code, then serve. */
  method ServerMain(argv: seq<string>, ports: seq<Port>, events: seq<Datagram>, messages: seq<string>)
    returns (r: ServerExit)
    ensures ParseServerArgs(argv).Err? ==> r == ConfigExit(1, ParseServerArgs(argv).error)
    ensures ParseServerArgs(argv).Ok? ==> r == Served(Serve(ParseServerArgs(argv).value, ports, 0, events, messages))
  {
    var args := ParseServerArgs(argv);
    if args.Err? {
      return ConfigExit(1, args.error);
    }
    var service := ServeForever(args.value, ports, events, messages);
    return Served(service);
  }
}
