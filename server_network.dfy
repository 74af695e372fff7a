// server/network/NetworkManager.cpp: the server's UDP endpoint. The socket and
// the receive thread are reduced to flags; `receiveLoop` is modelled on the
// datagrams that `recvfrom` returns while `running` holds, each given as the
// call's result, the 1024-byte buffer it filled and the sender's address.
module ServerNetwork {
  import opened Common

  const RECEIVE_BUFFER_SIZE: nat := 1024
  const PORT_LIMIT: nat := U16_LIMIT

  /** A `sockaddr_in`: the IPv4 address as four octets and the port. */
  datatype Endpoint = Endpoint(octets: seq<byte>, port: nat)
  {
    predicate Valid()
    {
      |octets| == 4 && port < PORT_LIMIT
    }
  }

  // ---------------------------------------------------------------------------
  // The registry key "ip:port"

  function DigitChar(d: nat): (c: char)
    requires d < 10
    ensures '0' <= c <= '9'
  {
    (d + '0' as int) as char
  }

  /** `std::to_string` of a non-negative number: its decimal digits, most significant first. */
  function Decimal(n: nat): (s: string)
    ensures |s| >= 1
    ensures forall i | 0 <= i < |s| :: '0' <= s[i] <= '9'
  {
    if n < 10 then [DigitChar(n)] else Decimal(n / 10) + [DigitChar(n % 10)]
  }

  /** The number a string of decimal digits spells. */
  function ParseDecimal(s: string): nat
    requires forall i | 0 <= i < |s| :: '0' <= s[i] <= '9'
  {
    if s == [] then 0 else 10 * ParseDecimal(s[..|s| - 1]) + (s[|s| - 1] as int - '0' as int)
  }

  lemma {:induction false} DecimalRoundTrip(n: nat)
    ensures ParseDecimal(Decimal(n)) == n
  {
    if n >= 10 {
      var s := Decimal(n);
      assert s[..|s| - 1] == Decimal(n / 10);
      DecimalRoundTrip(n / 10);
    }
  }

  /** Two numbers with the same decimal spelling are equal. */
  lemma DecimalInjective(m: nat, n: nat)
    requires Decimal(m) == Decimal(n)
    ensures m == n
  {
    DecimalRoundTrip(m);
    DecimalRoundTrip(n);
  }

  /** A decimal number followed by a separator and the rest of the text. */
  function Field(n: nat, sep: char, rest: string): string
  {
    Decimal(n) + [sep] + rest
  }

  /**
   * The key `receiveLoop` files a sender under: `inet_ntoa`'s dotted quad, a
   * colon, then `std::to_string` of the port.
   */
  function ClientKey(ep: Endpoint): string
    requires ep.Valid()
  {
    var o := ep.octets;
    Field(o[0], '.', Field(o[1], '.', Field(o[2], '.', Field(o[3], ':', Decimal(ep.port)))))
  }

  /** The key opens with the first octet and a dot, and closes with a colon and the port. */
  lemma ClientKeyShape(ep: Endpoint)
    requires ep.Valid()
    ensures var r, first, port := ClientKey(ep), Decimal(ep.octets[0]), Decimal(ep.port);
      |r| > |first| + |port| && r[..|first| + 1] == first + ['.'] && r[|r| - |port| - 1..] == [':'] + port
  {
    var o := ep.octets;
    var front := Decimal(o[0]) + ['.'] + Decimal(o[1]) + ['.'] + Decimal(o[2]) + ['.'] + Decimal(o[3]);
    assert ClientKey(ep) == front + [':'] + Decimal(ep.port);
  }

  predicate IsDigit(c: char)
  {
    '0' <= c <= '9'
  }

  /** The run of digits a string starts with. */
  function LeadingDigits(s: string): (r: string)
    ensures |r| <= |s| && r == s[..|r|]
  {
    if s == [] || !IsDigit(s[0]) then [] else [s[0]] + LeadingDigits(s[1..])
  }

  lemma {:induction false} LeadingDigitsOfField(x: string, sep: char, rest: string)
    requires forall i | 0 <= i < |x| :: IsDigit(x[i])
    requires !IsDigit(sep)
    ensures LeadingDigits(x + [sep] + rest) == x
  {
    if x != [] {
      assert (x + [sep] + rest)[1..] == x[1..] + [sep] + rest;
      LeadingDigitsOfField(x[1..], sep, rest);
    }
  }

  /** Cutting at the first separator that is not a digit gives back the number and the rest. */
  lemma FieldInjective(m: nat, r1: string, n: nat, r2: string, sep: char)
    requires !IsDigit(sep)
    requires Field(m, sep, r1) == Field(n, sep, r2)
    ensures m == n && r1 == r2
  {
    var s := Field(m, sep, r1);
    LeadingDigitsOfField(Decimal(m), sep, r1);
    LeadingDigitsOfField(Decimal(n), sep, r2);
    DecimalInjective(m, n);
    assert r1 == s[|Decimal(m)| + 1..] == r2;
  }

  /** Different senders never share a registry key. */
  lemma ClientKeyInjective(a: Endpoint, b: Endpoint)
    requires a.Valid() && b.Valid() && ClientKey(a) == ClientKey(b)
    ensures a == b
  {
    var o, p := a.octets, b.octets;
    FieldInjective(o[0], Field(o[1], '.', Field(o[2], '.', Field(o[3], ':', Decimal(a.port)))),
                   p[0], Field(p[1], '.', Field(p[2], '.', Field(p[3], ':', Decimal(b.port)))), '.');
    FieldInjective(o[1], Field(o[2], '.', Field(o[3], ':', Decimal(a.port))),
                   p[1], Field(p[2], '.', Field(p[3], ':', Decimal(b.port))), '.');
    FieldInjective(o[2], Field(o[3], ':', Decimal(a.port)), p[2], Field(p[3], ':', Decimal(b.port)), '.');
    FieldInjective(o[3], Decimal(a.port), p[3], Decimal(b.port), ':');
    DecimalInjective(a.port, b.port);
    assert o == [o[0], o[1], o[2], o[3]] && p == [p[0], p[1], p[2], p[3]];
  }

  // ---------------------------------------------------------------------------
  // The receive loop on values

  /** One `recvfrom`: its result (-1 on error), the receive buffer after it, the sender. */
  datatype Datagram = Datagram(received: int, buffer: seq<byte>, sender: Endpoint)
  {
    /** What `recvfrom` on a 1024-byte buffer can return. */
    predicate Valid()
    {
      received <= RECEIVE_BUFFER_SIZE && |buffer| == RECEIVE_BUFFER_SIZE && sender.Valid()
    }
  }

  predicate AllValid(ds: seq<Datagram>)
  {
    forall i | 0 <= i < |ds| :: ds[i].Valid()
  }

  /** A message handed to the callback, or sent with `sendTo`: the bytes and the peer. */
  datatype Message = Message(data: seq<byte>, peer: Endpoint)

  /** The registry after `ds` were received on top of `clients`: each sender of a non-empty datagram filed under its key. */
  function Registered(clients: map<string, Endpoint>, ds: seq<Datagram>): (r: map<string, Endpoint>)
    requires AllValid(ds)
    ensures clients.Keys <= r.Keys
    ensures ds != [] && ds[|ds| - 1].received > 0 ==> ClientKey(ds[|ds| - 1].sender) in r && r[ClientKey(ds[|ds| - 1].sender)] == ds[|ds| - 1].sender
  {
    if ds == [] then clients
    else
      var before := Registered(clients, ds[..|ds| - 1]);
      var d := ds[|ds| - 1];
      if d.received > 0 then before[ClientKey(d.sender) := d.sender] else before
  }

  /** The callback's arguments for `ds`: the first `received` bytes of each non-empty datagram. */
  function Payloads(ds: seq<Datagram>): (r: seq<Message>)
    requires AllValid(ds)
    ensures |r| <= |ds|
    ensures ds != [] && ds[|ds| - 1].received > 0 ==> r != [] && r[|r| - 1].peer == ds[|ds| - 1].sender
  {
    if ds == [] then []
    else
      var d := ds[|ds| - 1];
      Payloads(ds[..|ds| - 1]) + (if d.received > 0 then [Message(d.buffer[..d.received], d.sender)] else [])
  }

  /** Receiving one more datagram extends the registry and the callback's arguments by that datagram alone. */
  lemma ReceivedOneMore(clients: map<string, Endpoint>, ds: seq<Datagram>, i: nat)
    requires AllValid(ds) && i < |ds|
    ensures Registered(clients, ds[..i + 1]) == Registered(Registered(clients, ds[..i]), [ds[i]])
    ensures Payloads(ds[..i + 1]) == Payloads(ds[..i]) + Payloads([ds[i]])
  {
    assert ds[..i + 1][..i] == ds[..i];
    assert [ds[i]][..0] == [];
  }

  /** Every entry is filed under its own endpoint's key. */
  ghost predicate KeyedBySender(clients: map<string, Endpoint>)
  {
    forall k | k in clients :: clients[k].Valid() && ClientKey(clients[k]) == k
  }

  /** `d` is a non-empty datagram from the sender filed under `k`. */
  predicate HeardFrom(d: Datagram, k: string)
    requires d.Valid()
  {
    d.received > 0 && ClientKey(d.sender) == k
  }

  /** A key is in the registry after `ds` exactly when it was before or a non-empty datagram came from it. */
  lemma {:induction false} RegisteredKeys(clients: map<string, Endpoint>, ds: seq<Datagram>, k: string)
    requires AllValid(ds)
    ensures k in Registered(clients, ds) <==> k in clients || exists i | 0 <= i < |ds| :: HeardFrom(ds[i], k)
  {
    if ds != [] {
      var init := ds[..|ds| - 1];
      RegisteredKeys(clients, init, k);
      if k in Registered(clients, init) && k !in clients {
        var i :| 0 <= i < |init| && HeardFrom(init[i], k);
        assert ds[i] == init[i];
      }
      if k !in Registered(clients, init) && k in Registered(clients, ds) {
        assert HeardFrom(ds[|ds| - 1], k);
      }
      if k !in Registered(clients, ds) {
        forall i | 0 <= i < |ds| ensures !HeardFrom(ds[i], k) {
          if i < |init| {
            assert init[i] == ds[i];
          }
        }
      }
    }
  }

  /** Receiving keeps every entry filed under its own sender's key. */
  lemma {:induction false} RegisteredKeyedBySender(clients: map<string, Endpoint>, ds: seq<Datagram>)
    requires AllValid(ds) && KeyedBySender(clients)
    ensures KeyedBySender(Registered(clients, ds))
  {
    if ds != [] {
      RegisteredKeyedBySender(clients, ds[..|ds| - 1]);
    }
  }

  /**
   * However often a sender is heard from, the registry holds exactly one entry
   * for it: the one under its own key.
   */
  lemma OneEntryPerSender(clients: map<string, Endpoint>, ep: Endpoint)
    requires KeyedBySender(clients) && ep.Valid() && ClientKey(ep) in clients
    ensures clients[ClientKey(ep)] == ep
    ensures forall k | k in clients :: clients[k] == ep <==> k == ClientKey(ep)
  {
    ClientKeyInjective(clients[ClientKey(ep)], ep);
  }

  /** Each payload is a non-empty prefix of its datagram's buffer, so it holds between 1 and 1024 bytes. */
  lemma {:induction false} PayloadSizes(ds: seq<Datagram>)
    requires AllValid(ds)
    ensures forall m | m in Payloads(ds) :: 1 <= |m.data| <= RECEIVE_BUFFER_SIZE
  {
    if ds != [] {
      PayloadSizes(ds[..|ds| - 1]);
    }
  }

  class NetworkServer {
    const port: nat
    var running: bool
    var socketOpen: bool
    var receiveThreadAlive: bool
    /** `clients`: the registry keyed by "ip:port". */
    var clients: map<string, Endpoint>
    var hasCallback: bool
    /** Every call of the message callback, in order. */
    var delivered: seq<Message>
    /** Every `sendTo`, in order. */
    var sent: seq<Message>

    /** The receive thread runs exactly while `running` holds, and the registry is keyed by sender. */
    ghost predicate Valid()
      reads this
    {
      receiveThreadAlive == running && KeyedBySender(clients)
    }

    constructor (port: nat)
      ensures Valid() && this.port == port
      ensures !running && !socketOpen && !receiveThreadAlive && !hasCallback
      ensures clients == map[] && delivered == [] && sent == []
    {
      this.port := port;
      running := false;
      socketOpen := false;
      receiveThreadAlive := false;
      clients := map[];
      hasCallback := false;
      delivered := [];
      sent := [];
    }

    /**
     * `start`: a no-op while running. Otherwise the socket is created and bound
     * (`socketOk` and `bindOk` say whether those calls succeed; a failure throws
     * with `running` still false), then `running` is set and the receive thread
     * started.
     */
    method Start(socketOk: bool, bindOk: bool) returns (threw: bool)
      requires Valid()
      modifies this`running, this`socketOpen, this`receiveThreadAlive
      ensures Valid()
      ensures old(running) ==> !threw && running && socketOpen == old(socketOpen)
      ensures !old(running) ==> (threw <==> !(socketOk && bindOk))
      ensures !old(running) && threw ==> !running && socketOpen == (socketOk || old(socketOpen))
      ensures !old(running) && !threw ==> running && socketOpen
    {
      threw := false;
      if running {
        return;
      }
      if !socketOk {
        threw := true;
        return;
      }
      socketOpen := true;
      if !bindOk {
        threw := true;
        return;
      }
      running := true;
      receiveThreadAlive := true;
    }

    /** `stop`: a no-op unless running; clears `running`, joins the receive thread, closes the socket. */
    method Stop()
      requires Valid()
      modifies this`running, this`socketOpen, this`receiveThreadAlive
      ensures Valid() && !running
      ensures !old(running) ==> socketOpen == old(socketOpen)
      ensures old(running) ==> !socketOpen
    {
      if !running {
        return;
      }
      running := false;
      receiveThreadAlive := false;
      socketOpen := false;
    }

    method SetMessageCallback()
      modifies this`hasCallback
      ensures hasCallback
    {
      hasCallback := true;
    }

    /** `sendTo`: one datagram to `client`. */
    method SendTo(data: seq<byte>, client: Endpoint)
      modifies this`sent
      ensures sent == old(sent) + [Message(data, client)]
    {
      sent := sent + [Message(data, client)];
    }

    /**
     * One pass of `receiveLoop`'s body: a datagram with `received > 0` files its
     * sender under "ip:port" (inserting or overwriting) and, when a callback is
     * set, hands it the first `received` bytes of the buffer.
     */
    method ReceiveOne(d: Datagram)
      requires Valid() && d.Valid()
      modifies this`clients, this`delivered
      ensures Valid()
      ensures clients == Registered(old(clients), [d])
      ensures delivered == old(delivered) + (if hasCallback then Payloads([d]) else [])
    {
      if d.received > 0 {
        var clientId := ClientKey(d.sender);
        clients := clients[clientId := d.sender];
        if hasCallback {
          delivered := delivered + [Message(d.buffer[..d.received], d.sender)];
        }
      }
      assert [d][..0] == [];
    }

    /**
     * `receiveLoop` over the datagrams that arrive while `running` holds. No
     * other thread clears `running` in this sequential model, so a loop that
     * starts running takes all of `incoming` and one that does not takes none.
     */
    method ReceiveLoop(incoming: seq<Datagram>)
      requires Valid() && AllValid(incoming)
      modifies this`clients, this`delivered
      ensures Valid()
      ensures clients == if running then Registered(old(clients), incoming) else old(clients)
      ensures delivered == old(delivered) + (if running && hasCallback then Payloads(incoming) else [])
    {
      var i := 0;
      while running && i < |incoming|
        invariant 0 <= i <= |incoming|
        invariant !running ==> i == 0
        invariant Valid()
        invariant clients == Registered(old(clients), incoming[..i])
        invariant delivered == old(delivered) + (if hasCallback then Payloads(incoming[..i]) else [])
      {
        ReceivedOneMore(old(clients), incoming, i);
        ReceiveOne(incoming[i]);
        i := i + 1;
      }
      if running {
        assert incoming[..i] == incoming;
      }
    }
  }
}
