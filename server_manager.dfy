// server/manager/Manager.cpp: the server's message routing. The network's
// callback answers a connect request with a connect response and passes every
// message on to the game engine. The game engine is outside this model: its
// `handleMessage` and `createNewPlayer` calls are recorded in order, and the id
// `createNewPlayer` returns is a parameter.
module ServerManager {
  import opened Common
  import opened Packets
  import opened PacketBuffers
  import opened ServerNetwork

  /** A call into the game engine. */
  datatype GameCall = HandleMessage(message: Message) | CreateNewPlayer(sender: Endpoint)

  /** The whole connect response the server sends: standard header, then `success` and `playerId`. */
  predicate IsConnectResponse(L: Layout, packet: seq<byte>, playerId: nat)
    requires L.Valid()
  {
    |packet| == HEADER_SIZE + L.connectResponseSize &&
    DecodeHeader(packet) == Some(StandardHeader(CONNECT_RESPONSE, LengthField(|packet|))) &&
    IsConnectResponseBody(L, packet[HEADER_SIZE..], true, playerId)
  }

  /**
   * `connectResponse->success = true; connectResponse->playerId = playerId;` on
   * the zero-filled body of `a`; the id field keeps the low bytes of the id.
   */
  method WriteConnectResponseBody(a: array<byte>, L: Layout, playerId: nat)
    requires L.Valid() && a.Length == HEADER_SIZE + L.connectResponseSize
    requires forall j | HEADER_SIZE <= j < a.Length :: a[j] == 0
    modifies a
    ensures a[..HEADER_SIZE] == old(a[..HEADER_SIZE])
    ensures IsConnectResponseBody(L, a[HEADER_SIZE..], true, playerId)
  {
    var success := HEADER_SIZE + L.successOffset;
    a[success] := BoolByte(true);
    var field := LittleEndian(playerId, L.playerIdWidth);
    var base := HEADER_SIZE + L.playerIdOffset;
    forall j | 0 <= j < L.playerIdWidth {
      a[base + j] := field[j];
    }
    var body := a[HEADER_SIZE..];
    assert body[L.playerIdOffset..L.playerIdOffset + L.playerIdWidth] == field by {
      forall j | 0 <= j < L.playerIdWidth
        ensures body[L.playerIdOffset..L.playerIdOffset + L.playerIdWidth][j] == field[j]
      {
        assert body[L.playerIdOffset + j] == a[base + j];
      }
    }
    forall i | 0 <= i < |body| && i != L.successOffset && !(L.playerIdOffset <= i < L.playerIdOffset + L.playerIdWidth)
      ensures body[i] == 0
    {
      assert body[i] == a[HEADER_SIZE + i];
    }
    assert a[..HEADER_SIZE] == old(a[..HEADER_SIZE]) by {
      forall j | 0 <= j < HEADER_SIZE ensures a[j] == old(a[j]) {
      }
    }
  }

  /** The response both connect paths build: a zero-filled buffer, the header, then the body. */
  method CreateConnectResponse(L: Layout, playerId: nat) returns (response: seq<byte>)
    requires L.Valid()
    ensures IsConnectResponse(L, response, playerId)
    ensures playerId < Pow256(L.playerIdWidth) ==> ReadConnectResponse(L, response[HEADER_SIZE..]) == (true, playerId)
  {
    var a := new byte[HEADER_SIZE + L.connectResponseSize](_ => 0);
    WriteHeader(a, CONNECT_RESPONSE);
    forall j | HEADER_SIZE <= j < a.Length ensures a[j] == 0 {
      assert a[j] == a[HEADER_SIZE..][j - HEADER_SIZE];
    }
    WriteConnectResponseBody(a, L, playerId);
    response := a[..];
    assert response[..HEADER_SIZE] == a[..HEADER_SIZE];
    HeaderOfPacket(response, StandardHeader(CONNECT_RESPONSE, LengthField(a.Length)));
    assert response[HEADER_SIZE..] == a[HEADER_SIZE..];
    if playerId < Pow256(L.playerIdWidth) {
      ConnectResponseRoundTrip(L, response[HEADER_SIZE..], true, playerId);
    }
  }

  /** A 1-byte datagram: what `recvfrom` reports for the smallest non-empty message. */
  const OneByteDatagram: Datagram := Datagram(1, seq(RECEIVE_BUFFER_SIZE, _ => 0), Endpoint([127, 0, 0, 1], 4242))

  /**
   * The receive loop hands the callback any non-empty datagram, so it can pass
   * a payload of one byte, shorter than the four bytes the routing reads to
   * reach `header->type`.
   */
  lemma ShortPayloadReachesCallback()
    ensures OneByteDatagram.Valid()
    ensures Payloads([OneByteDatagram]) == [Message([0], OneByteDatagram.sender)]
    ensures |Payloads([OneByteDatagram])[0].data| <= 3
  {
    assert [OneByteDatagram][..0] == [];
    assert OneByteDatagram.buffer[..1] == [0];
  }

  class Manager {
    const network: NetworkServer
    const layout: Layout
    /** `running` (atomic): the update loop goes on while it holds. */
    var running: bool
    var updateThreadAlive: bool
    /** Every call made to the game engine, in order. */
    var gameCalls: seq<GameCall>

    ghost predicate Valid()
      reads this, network
    {
      network.Valid() && network.hasCallback && layout.Valid()
    }

    /** The constructor: a stopped network whose message callback is the routing below. */
    constructor (port: nat, layout: Layout)
      requires layout.Valid()
      ensures Valid() && fresh(network) && this.layout == layout
      ensures network.port == port && !network.running && network.clients == map[]
      ensures network.delivered == [] && network.sent == []
      ensures !running && !updateThreadAlive && gameCalls == []
    {
      this.layout := layout;
      var n := new NetworkServer(port);
      n.SetMessageCallback();
      network := n;
      running := false;
      updateThreadAlive := false;
      gameCalls := [];
    }

    /**
     * The callback as written: it reads the type byte through a `PacketHeader*`
     * with no size check, so it needs at least four bytes. A connect request is
     * passed to the game, a player is created for its sender, and a connect
     * response carrying that player's id goes back to the sender; any other
     * message is only passed to the game.
     */
    method OnMessageAsWritten(data: seq<byte>, sender: Endpoint, newPlayerId: nat)
      requires Valid() && |data| > 3
      modifies this`gameCalls, network`sent
      ensures Valid()
      ensures data[3] == CONNECT_REQUEST ==>
        gameCalls == old(gameCalls) + [HandleMessage(Message(data, sender)), CreateNewPlayer(sender)] &&
        |network.sent| == |old(network.sent)| + 1 && network.sent[..|old(network.sent)|] == old(network.sent) &&
        network.sent[|old(network.sent)|].peer == sender &&
        IsConnectResponse(layout, network.sent[|old(network.sent)|].data, newPlayerId)
      ensures data[3] != CONNECT_REQUEST ==>
        gameCalls == old(gameCalls) + [HandleMessage(Message(data, sender))] && network.sent == old(network.sent)
    {
      if data[3] == CONNECT_REQUEST {
        gameCalls := gameCalls + [HandleMessage(Message(data, sender))];
        Respond(sender, newPlayerId);
      } else {
        gameCalls := gameCalls + [HandleMessage(Message(data, sender))];
      }
    }

    /**
     * The effect of routing `data` from `sender`: nothing for a payload too
     * short to hold the type byte; otherwise the message goes to the game, and
     * a connect request also creates a player and sends exactly one connect
     * response carrying that player's id back to its sender.
     */
    twostate predicate Routed(data: seq<byte>, sender: Endpoint, newPlayerId: nat)
      reads this, network
      requires layout.Valid()
    {
      if |data| <= 3 then
        gameCalls == old(gameCalls) && network.sent == old(network.sent)
      else if data[3] == CONNECT_REQUEST then
        gameCalls == old(gameCalls) + [HandleMessage(Message(data, sender)), CreateNewPlayer(sender)] &&
        |network.sent| == |old(network.sent)| + 1 && network.sent[..|old(network.sent)|] == old(network.sent) &&
        network.sent[|old(network.sent)|].peer == sender &&
        IsConnectResponse(layout, network.sent[|old(network.sent)|].data, newPlayerId)
      else
        gameCalls == old(gameCalls) + [HandleMessage(Message(data, sender))] && network.sent == old(network.sent)
    }

    /**
     * The callback with the one check it lacks: a payload too short to hold
     * the type byte is dropped; any other is routed as written.
     */
    method OnMessage(data: seq<byte>, sender: Endpoint, newPlayerId: nat)
      requires Valid()
      modifies this`gameCalls, network`sent
      ensures Valid()
      ensures Routed(data, sender, newPlayerId)
    {
      if |data| <= 3 {
        return;
      }
      OnMessageAsWritten(data, sender, newPlayerId);
    }

    /** The connect answer: `createNewPlayer(sender)`, then the response sent to `sender`. */
    method Respond(sender: Endpoint, newPlayerId: nat)
      requires Valid()
      modifies this`gameCalls, network`sent
      ensures Valid()
      ensures gameCalls == old(gameCalls) + [CreateNewPlayer(sender)]
      ensures |network.sent| == |old(network.sent)| + 1 && network.sent[..|old(network.sent)|] == old(network.sent)
      ensures network.sent[|old(network.sent)|].peer == sender
      ensures IsConnectResponse(layout, network.sent[|old(network.sent)|].data, newPlayerId)
    {
      gameCalls := gameCalls + [CreateNewPlayer(sender)];
      var response := CreateConnectResponse(layout, newPlayerId);
      network.SendTo(response, sender);
    }

    /** `handleNewConnection`: the same answer as the connect path of the callback, without the game message. */
    method HandleNewConnection(sender: Endpoint, newPlayerId: nat)
      requires Valid()
      modifies this`gameCalls, network`sent
      ensures Valid()
      ensures gameCalls == old(gameCalls) + [CreateNewPlayer(sender)]
      ensures |network.sent| == |old(network.sent)| + 1 && network.sent[..|old(network.sent)|] == old(network.sent)
      ensures network.sent[|old(network.sent)|].peer == sender
      ensures IsConnectResponse(layout, network.sent[|old(network.sent)|].data, newPlayerId)
    {
      Respond(sender, newPlayerId);
    }

    /**
     * One datagram through the receive loop and the callback: the sender is
     * registered and a non-empty payload is routed by the corrected callback. `newPlayerId` is what
     * `createNewPlayer` would return.
     */
    method Receive(d: Datagram, newPlayerId: nat)
      requires Valid() && d.Valid()
      modifies this`gameCalls, network`sent, network`clients, network`delivered
      ensures Valid()
      ensures network.clients == Registered(old(network.clients), [d])
      ensures network.delivered == old(network.delivered) + Payloads([d])
      ensures d.received <= 0 ==> gameCalls == old(gameCalls) && network.sent == old(network.sent)
      ensures d.received > 0 ==> Routed(d.buffer[..d.received], d.sender, newPlayerId)
    {
      network.ReceiveOne(d);
      if d.received > 0 {
        OnMessage(d.buffer[..d.received], d.sender, newPlayerId);
      }
    }

    /**
     * `start`: sets `running`, starts the network, then the update thread. A
     * network that fails to start throws out of `start` with `running` already
     * set and no update thread. Assigning to a still-joinable `std::thread`
     * ends the program, so `start` needs the update thread stopped.
     */
    method Start(socketOk: bool, bindOk: bool) returns (threw: bool)
      requires Valid() && !updateThreadAlive
      modifies this`running, this`updateThreadAlive, network`running, network`socketOpen, network`receiveThreadAlive
      ensures Valid() && running
      ensures threw == (!old(network.running) && !(socketOk && bindOk))
      ensures updateThreadAlive == !threw
      ensures !threw ==> network.running
    {
      running := true;
      threw := network.Start(socketOk, bindOk);
      if threw {
        return;
      }
      updateThreadAlive := true;
    }

    /** `stop`: clears `running`, joins the update thread, and only then stops the network. */
    method Stop()
      requires Valid()
      modifies this`running, this`updateThreadAlive, network`running, network`socketOpen, network`receiveThreadAlive
      ensures Valid()
      ensures !running && !updateThreadAlive && !network.running && !network.receiveThreadAlive
    {
      running := false;
      if updateThreadAlive {
        updateThreadAlive := false;
      }
      network.Stop();
    }
  }
}
