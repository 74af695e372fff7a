// client/network/NetworkManager.cpp: the client's UDP endpoint. The socket, the
// io_context thread and asio's completion handlers are reduced to the flags
// they set (`running`, an armed receive, an open socket) and to logs of the
// datagrams handed to the message callback and to the socket.
module ClientNetwork {
  import opened Common
  import opened Packets
  import opened PacketBuffers

  const RECEIVE_BUFFER_SIZE: nat := 1024

  /** The host the endpoint is resolved from: "localhost" is spelled out as the loopback address. */
  function ResolveHost(serverIP: string): (r: string)
    ensures serverIP == "localhost" ==> r == "127.0.0.1"
    ensures serverIP != "localhost" ==> r == serverIP
  {
    if serverIP == "localhost" then "127.0.0.1" else serverIP
  }

  /** The bytes `c_str()` offers to `strncpy`: everything before the first NUL. */
  function CString(s: seq<byte>): (r: seq<byte>)
    ensures |r| <= |s| && r == s[..|r|]
    ensures forall i | 0 <= i < |r| :: r[i] != 0
    ensures |r| < |s| ==> s[|r|] == 0
    decreases |s|
  {
    if s == [] || s[0] == 0 then [] else [s[0]] + CString(s[1..])
  }

  /**
   * The username field after `strncpy(field, name, size - 1)` and
   * `field[size - 1] = '\0'`: the C string, cut to size - 1 bytes, then NUL padding.
   */
  function UsernameField(name: seq<byte>, size: nat): (r: seq<byte>)
    ensures |r| == size
  {
    var c := CString(name);
    seq(size, j => if 0 <= j < size - 1 && j < |c| then c[j] else 0)
  }

  /** Byte j of a copied C string, NUL past its end. */
  function CopiedByte(c: seq<byte>, j: nat): byte
  {
    if j < |c| then c[j] else 0
  }

  /**
   * A name of printable characters (no NUL) lands in the field cut to size - 1
   * bytes, and the field always ends with a NUL.
   */
  lemma {:induction false} UsernameFieldTruncates(name: seq<byte>, size: nat)
    requires size >= 1 && forall i | 0 <= i < |name| :: name[i] != 0
    ensures var k := if |name| < size - 1 then |name| else size - 1;
      UsernameField(name, size)[..k] == name[..k] &&
      (forall j | k <= j < size :: UsernameField(name, size)[j] == 0)
    ensures UsernameField(name, size)[size - 1] == 0
  {
    NoNulIsWholeCString(name);
  }

  lemma {:induction false} NoNulIsWholeCString(name: seq<byte>)
    requires forall i | 0 <= i < |name| :: name[i] != 0
    ensures CString(name) == name
  {
    var c := CString(name);
    if |c| < |name| {
      assert false;
    }
  }

  /** The status asio hands to the receive handler. */
  datatype ReceiveStatus = Success | OperationAborted | OtherError

  /** The six flags of the client's `InputComponent`. */
  function FlagsOf(up: bool, down: bool, left: bool, right: bool, space: bool, ultimate: bool): InputFlags
  {
    InputFlags(up, down, left, right, space, ultimate)
  }

  /**
   * `strncpy(field, name, size - 1)` then `field[size - 1] = '\0'`, on the
   * `size` bytes of `a` from `base`: the bytes are copied until the NUL that
   * ends the C string, and the rest of the field is filled with NULs.
   */
  method CopyUsername(a: array<byte>, base: nat, size: nat, name: seq<byte>)
    requires size >= 1 && base + size <= a.Length
    modifies a
    ensures a[base..base + size] == UsernameField(name, size)
    ensures a[..base] == old(a[..base]) && a[base + size..] == old(a[base + size..])
  {
    ghost var c := CString(name);
    var i := 0;
    var ended := false;
    while i < size - 1
      invariant 0 <= i <= size - 1
      invariant ended ==> i > |c|
      invariant !ended ==> i <= |c|
      invariant forall j | base <= j < base + i :: a[j] == CopiedByte(c, j - base)
      invariant a[..base] == old(a[..base]) && a[base + size..] == old(a[base + size..])
    {
      if !ended && i < |name| && name[i] != 0 {
        assert i < |c| && c[i] == name[i];
        a[base + i] := name[i];
      } else {
        ended := true;
        a[base + i] := 0;
      }
      i := i + 1;
    }
    a[base + size - 1] := 0;
    forall j | 0 <= j < size ensures a[base..base + size][j] == UsernameField(name, size)[j] {
      assert a[base..base + size][j] == a[base + j];
      assert UsernameField(name, size)[j] == if j < size - 1 then CopiedByte(c, j) else 0;
    }
  }

  /** `createConnectRequest`: header + request body, the username copied in as a C string. */
  method CreateConnectRequest(L: Layout, username: seq<byte>) returns (packet: seq<byte>)
    requires L.Valid()
    ensures |packet| == HEADER_SIZE + L.connectRequestSize
    ensures DecodeHeader(packet) == Some(StandardHeader(CONNECT_REQUEST, LengthField(|packet|)))
    ensures var base := HEADER_SIZE + L.usernameOffset;
      packet[base..base + L.usernameSize] == UsernameField(username, L.usernameSize) &&
      forall j | HEADER_SIZE <= j < |packet| && !(base <= j < base + L.usernameSize) :: packet[j] == 0
  {
    var a := new byte[HEADER_SIZE + L.connectRequestSize](_ => 0);
    WriteHeader(a, CONNECT_REQUEST);
    forall j | HEADER_SIZE <= j < a.Length ensures a[j] == 0 {
      assert a[j] == a[HEADER_SIZE..][j - HEADER_SIZE];
    }
    ghost var header := a[..HEADER_SIZE];
    var base := HEADER_SIZE + L.usernameOffset;
    ghost var before := a[..];
    CopyUsername(a, base, L.usernameSize, username);
    packet := a[..];
    assert packet[..HEADER_SIZE] == header by {
      assert packet[..base] == before[..base];
    }
    HeaderOfPacket(packet, StandardHeader(CONNECT_REQUEST, LengthField(a.Length)));
    forall j | HEADER_SIZE <= j < |packet| && !(base <= j < base + L.usernameSize) ensures packet[j] == 0 {
      if j < base {
        assert packet[j] == packet[..base][j] == before[..base][j];
      } else {
        assert packet[j] == packet[base + L.usernameSize..][j - base - L.usernameSize];
      }
    }
  }

  /** `createDisconnectRequest`: a bare header of type DISCONNECT. */
  method CreateDisconnectRequest() returns (packet: seq<byte>)
    ensures packet == EncodeHeader(StandardHeader(DISCONNECT, HEADER_SIZE))
    ensures DecodeHeader(packet) == Some(StandardHeader(DISCONNECT, HEADER_SIZE))
  {
    var a := new byte[HEADER_SIZE](_ => 0);
    WriteHeader(a, DISCONNECT);
    packet := a[..];
    assert packet == a[..HEADER_SIZE];
    HeaderRoundTrip(StandardHeader(DISCONNECT, HEADER_SIZE));
  }

  /** Byte i of the six-flag input body the builders write. */
  function InputByte(L: Layout, input: InputFlags, i: nat): byte
  {
    if i == 0 then BoolByte(input.up)
    else if i == 1 then BoolByte(input.down)
    else if i == 2 then BoolByte(input.left)
    else if i == 3 then BoolByte(input.right)
    else if i == L.spaceOffset then BoolByte(input.space)
    else if i == L.ultimateOffset then BoolByte(input.ultimate)
    else 0
  }

  lemma InputBytesFormBody(L: Layout, input: InputFlags, body: seq<byte>)
    requires L.Valid() && |body| == L.inputSize
    requires forall i | 0 <= i < |body| :: body[i] == InputByte(L, input, i)
    ensures IsInputBody(L, body, input)
  {
    assert body[..PLAYER_INPUT_SIZE] == [body[0], body[1], body[2], body[3]];
  }

  /** The four flags every version of the input struct declares first: up, down, left, right. */
  method WriteDirectionFlags(a: array<byte>, L: Layout, input: InputFlags)
    requires a.Length >= HEADER_SIZE + PLAYER_INPUT_SIZE
    modifies a
    ensures forall j | 0 <= j < a.Length ::
      a[j] == (if HEADER_SIZE <= j < HEADER_SIZE + PLAYER_INPUT_SIZE
               then InputByte(L, input, j - HEADER_SIZE) else old(a[j]))
  {
    a[HEADER_SIZE] := BoolByte(input.up);
    a[HEADER_SIZE + 1] := BoolByte(input.down);
    a[HEADER_SIZE + 2] := BoolByte(input.left);
    a[HEADER_SIZE + 3] := BoolByte(input.right);
  }

  /** The body half of the input builders: the six flag bytes of a zeroed body at `a[HEADER_SIZE..]`. */
  method WriteInputBody(a: array<byte>, L: Layout, input: InputFlags)
    requires L.Valid() && a.Length == HEADER_SIZE + L.inputSize
    requires forall j | HEADER_SIZE <= j < a.Length :: a[j] == 0
    modifies a
    ensures a[..HEADER_SIZE] == old(a[..HEADER_SIZE])
    ensures IsInputBody(L, a[HEADER_SIZE..], input)
  {
    WriteDirectionFlags(a, L, input);
    ghost var declared := a[..];
    a[HEADER_SIZE + L.spaceOffset] := BoolByte(input.space);
    a[HEADER_SIZE + L.ultimateOffset] := BoolByte(input.ultimate);
    forall i | 0 <= i < L.inputSize ensures a[HEADER_SIZE + i] == InputByte(L, input, i) {
      if i != L.spaceOffset && i != L.ultimateOffset {
        assert a[HEADER_SIZE + i] == declared[HEADER_SIZE + i];
      }
    }
    ghost var body := a[HEADER_SIZE..];
    assert forall i | 0 <= i < |body| :: body[i] == InputByte(L, input, i) by {
      assert forall i | 0 <= i < |body| :: body[i] == a[HEADER_SIZE + i];
    }
    InputBytesFormBody(L, input, body);
  }

  /** `createPlayerInputPacket` (and the same bytes built inline by `Game::handleEvents`). */
  method CreatePlayerInputPacket(L: Layout, input: InputFlags) returns (packet: seq<byte>)
    requires L.Valid()
    ensures |packet| == HEADER_SIZE + L.inputSize
    ensures DecodeHeader(packet) == Some(StandardHeader(PLAYER_INPUT, LengthField(|packet|)))
    ensures IsInputBody(L, packet[HEADER_SIZE..], input)
    ensures ReadInputFlags(L, packet[HEADER_SIZE..]) == input
  {
    var a := new byte[HEADER_SIZE + L.inputSize](_ => 0);
    WriteHeader(a, PLAYER_INPUT);
    forall j | HEADER_SIZE <= j < a.Length ensures a[j] == 0 {
      assert a[j] == a[HEADER_SIZE..][j - HEADER_SIZE];
    }
    WriteInputBody(a, L, input);
    packet := a[..];
    assert packet[..HEADER_SIZE] == a[..HEADER_SIZE];
    HeaderOfPacket(packet, StandardHeader(PLAYER_INPUT, LengthField(a.Length)));
    assert packet[HEADER_SIZE..] == a[HEADER_SIZE..];
    InputBodyRoundTrip(L, packet[HEADER_SIZE..], input);
  }

  class NetworkClient {
    const serverIP: string
    var running: bool
    var socketOpen: bool
    /** An `async_receive_from` is outstanding. */
    var receiveArmed: bool
    /** The host the server endpoint was resolved from, once `start` got that far. */
    var endpointHost: Option<string>
    var hasCallback: bool
    /** Every payload handed to the message callback, in order. */
    var delivered: seq<seq<byte>>
    /** Every datagram passed to `sendTo`, in order. */
    var sent: seq<seq<byte>>

    constructor (serverIP: string)
      ensures this.serverIP == serverIP
      ensures !running && !socketOpen && !receiveArmed && endpointHost == None && !hasCallback
      ensures delivered == [] && sent == []
    {
      this.serverIP := serverIP;
      running := false;
      socketOpen := false;
      receiveArmed := false;
      endpointHost := None;
      hasCallback := false;
      delivered := [];
      sent := [];
    }

    /**
     * `start`: a no-op while running. Otherwise, in order: the socket is opened
     * (asio refuses to open a socket that is already open), bound, and the
     * server endpoint resolved; then `running` is set and the first receive
     * armed. `openOk`, `bindOk` and `addressOk` say whether `open`, `bind` and
     * `address::from_string` succeed. Any failure is rethrown (`threw`) with
     * `running` still false; a failed bind or address leaves the socket open,
     * so every later `start` throws until `stop` runs with `running` set.
     */
    method Start(openOk: bool, bindOk: bool, addressOk: bool) returns (threw: bool)
      modifies this`running, this`socketOpen, this`receiveArmed, this`endpointHost
      ensures old(running) ==>
                !threw && running == old(running) && socketOpen == old(socketOpen) &&
                receiveArmed == old(receiveArmed) && endpointHost == old(endpointHost)
      ensures !old(running) ==> (threw <==> old(socketOpen) || !openOk || !bindOk || !addressOk)
      ensures !old(running) && threw ==>
                !running && receiveArmed == old(receiveArmed) && endpointHost == old(endpointHost) &&
                socketOpen == (old(socketOpen) || openOk)
      ensures !old(running) && !threw ==>
                running && socketOpen && receiveArmed && endpointHost == Some(ResolveHost(serverIP))
    {
      threw := false;
      if running {
        return;
      }
      if socketOpen || !openOk {
        threw := true;
        return;
      }
      socketOpen := true;
      if !bindOk || !addressOk {
        threw := true;
        return;
      }
      endpointHost := Some(ResolveHost(serverIP));
      running := true;
      receiveArmed := true;
    }

    /** `stop`: a no-op unless running; clears `running`, cancels the pending receive and closes the socket. */
    method Stop()
      modifies this`running, this`socketOpen, this`receiveArmed
      ensures !old(running) ==> running == old(running) && socketOpen == old(socketOpen) && receiveArmed == old(receiveArmed)
      ensures old(running) ==> !running && !socketOpen && !receiveArmed
    {
      if !running {
        return;
      }
      running := false;
      receiveArmed := false;
      socketOpen := false;
    }

    method SetMessageCallback()
      modifies this`hasCallback
      ensures hasCallback
    {
      hasCallback := true;
    }

    /** `sendTo`: queues one datagram for the server endpoint. */
    method SendTo(data: seq<byte>)
      modifies this`sent
      ensures sent == old(sent) + [data]
    {
      sent := sent + [data];
    }

    /**
     * `handleReceive` for the receive that just completed, with `buffer` the
     * contents of the 1024-byte receive buffer. A successful non-empty receive
     * hands its first `bytesTransferred` bytes to the callback (if one is set);
     * afterwards a new receive is armed while running, unless the operation was
     * aborted.
     */
    method HandleReceive(status: ReceiveStatus, bytesTransferred: nat, buffer: seq<byte>)
      requires |buffer| == RECEIVE_BUFFER_SIZE && bytesTransferred <= RECEIVE_BUFFER_SIZE
      modifies this`receiveArmed, this`delivered
      ensures receiveArmed == (running && status != OperationAborted)
      ensures delivered == if status == Success && bytesTransferred > 0 && hasCallback
        then old(delivered) + [buffer[..bytesTransferred]] else old(delivered)
    {
      receiveArmed := false;
      if status == Success && bytesTransferred > 0 {
        if hasCallback {
          delivered := delivered + [buffer[..bytesTransferred]];
        }
        if running {
          receiveArmed := true;
        }
      } else if status != OperationAborted {
        if running {
          receiveArmed := true;
        }
      }
    }
  }
}
