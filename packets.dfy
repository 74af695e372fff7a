// shared/network/packetType.hpp: the packed wire records shared by client and
// server. Every datagram starts with the 8-byte header; the bodies follow it.
// Multi-byte integers are stored little-endian, as the packed structs lie in
// memory on the hosts the game targets. Float fields are carried as their four
// raw bytes: nothing here interprets them.
module Packets {
  import opened Common

  const HEADER_SIZE: nat := 8
  const MAGIC_R: byte := 82 // 'R'
  const MAGIC_T: byte := 84 // 'T'
  const PROTOCOL_VERSION: byte := 1

  // `PacketType` tags.
  const CONNECT_REQUEST: byte := 0x01
  const CONNECT_RESPONSE: byte := 0x02
  const DISCONNECT: byte := 0x03
  const HEARTBEAT: byte := 0x04
  const PLAYER_INPUT: byte := 0x10
  const GAME_STATE: byte := 0x11
  const ENTITY_UPDATE: byte := 0x20

  const DeclaredTypes: seq<byte> :=
    [CONNECT_REQUEST, CONNECT_RESPONSE, DISCONNECT, HEARTBEAT, PLAYER_INPUT, GAME_STATE, ENTITY_UPDATE]

  /** The seven declared tags are seven different bytes. */
  lemma DeclaredTypesDistinct()
    ensures |DeclaredTypes| == 7
    ensures forall i, j | 0 <= i < j < |DeclaredTypes| :: DeclaredTypes[i] != DeclaredTypes[j]
  {
  }

  /** `PacketHeader`; `length` and `sequence` are the values of the two u16 fields. */
  datatype Header = Header(magic0: byte, magic1: byte, version: byte, packetType: byte, length: nat, sequence: nat)
  {
    /** Both counters fit their 16-bit fields. */
    predicate Fits()
    {
      length < U16_LIMIT && sequence < U16_LIMIT
    }
  }

  /** The header every builder writes: "RT", version 1, the given type, sequence 0. */
  function StandardHeader(packetType: byte, length: nat): Header
  {
    Header(MAGIC_R, MAGIC_T, PROTOCOL_VERSION, packetType, length, 0)
  }

  /** `header->length = packet.size()`: the size is stored into a u16, keeping its low 16 bits. */
  function LengthField(size: nat): (r: nat)
    ensures r < U16_LIMIT
    ensures size < U16_LIMIT ==> r == size
  {
    size % U16_LIMIT
  }

  /** A datagram of 65536 bytes would announce length 0. */
  lemma LengthFieldWraps()
    ensures LengthField(U16_LIMIT) == 0
  {
  }

  function EncodeHeader(h: Header): (r: seq<byte>)
    requires h.Fits()
    ensures |r| == HEADER_SIZE
    ensures r[0] == h.magic0 && r[1] == h.magic1 && r[2] == h.version && r[3] == h.packetType
    ensures FromLittleEndian(r[4..6]) == h.length && FromLittleEndian(r[6..8]) == h.sequence
  {
    LittleEndianRoundTrip(h.length, 2);
    LittleEndianRoundTrip(h.sequence, 2);
    var r := [h.magic0, h.magic1, h.version, h.packetType] + LittleEndian(h.length, 2) + LittleEndian(h.sequence, 2);
    assert r[4..6] == LittleEndian(h.length, 2) && r[6..8] == LittleEndian(h.sequence, 2);
    r
  }

  /** Reading the header of a datagram; shorter than the header means there is none. */
  function DecodeHeader(s: seq<byte>): (r: Option<Header>)
    ensures r.Some? <==> |s| >= HEADER_SIZE
    ensures r.Some? ==> r.value.Fits() && r.value.packetType == s[3]
  {
    if |s| < HEADER_SIZE then None
    else
      LittleEndianOfValue(s[4..6]);
      LittleEndianOfValue(s[6..8]);
      Some(Header(s[0], s[1], s[2], s[3], FromLittleEndian(s[4..6]), FromLittleEndian(s[6..8])))
  }

  /** Decoding an encoded header gives back the same header, field for field. */
  lemma HeaderRoundTrip(h: Header)
    requires h.Fits()
    ensures DecodeHeader(EncodeHeader(h)) == Some(h)
  {
  }

  /** Any 8 bytes are the encoding of the header they decode to, so the layout has no slack. */
  lemma HeaderBytesRoundTrip(s: seq<byte>)
    requires |s| == HEADER_SIZE
    ensures EncodeHeader(DecodeHeader(s).value) == s
  {
    LittleEndianOfValue(s[4..6]);
    LittleEndianOfValue(s[6..8]);
    assert s == s[..4] + s[4..6] + s[6..8];
  }

  /** A float field: its four raw bytes. */
  type Float32 = s: seq<byte> | |s| == 4 witness [0, 0, 0, 0]

  /** `EntityUpdatePacket` as the header declares it. */
  datatype EntityUpdatePacket = EntityUpdatePacket(entityId: nat, x: Float32, y: Float32, dx: Float32, dy: Float32)

  const ENTITY_UPDATE_SIZE: nat := 20

  function EncodeEntityUpdate(p: EntityUpdatePacket): (r: seq<byte>)
    requires p.entityId < U32_LIMIT
    ensures |r| == ENTITY_UPDATE_SIZE
    ensures FromLittleEndian(r[0..4]) == p.entityId
    ensures r[4..8] == p.x && r[8..12] == p.y && r[12..16] == p.dx && r[16..20] == p.dy
  {
    LittleEndianRoundTrip(p.entityId, 4);
    var r := LittleEndian(p.entityId, 4) + p.x + p.y + p.dx + p.dy;
    assert r[0..4] == LittleEndian(p.entityId, 4);
    r
  }

  function DecodeEntityUpdate(s: seq<byte>): (r: Option<EntityUpdatePacket>)
    ensures r.Some? <==> |s| >= ENTITY_UPDATE_SIZE
    ensures r.Some? ==> r.value.entityId < U32_LIMIT
  {
    if |s| < ENTITY_UPDATE_SIZE then None
    else
      LittleEndianOfValue(s[0..4]);
      Some(EntityUpdatePacket(FromLittleEndian(s[0..4]), s[4..8], s[8..12], s[12..16], s[16..20]))
  }

  lemma EntityUpdateRoundTrip(p: EntityUpdatePacket)
    requires p.entityId < U32_LIMIT
    ensures DecodeEntityUpdate(EncodeEntityUpdate(p)) == Some(p)
  {
  }

  lemma EntityUpdateBytesRoundTrip(s: seq<byte>)
    requires |s| == ENTITY_UPDATE_SIZE
    ensures EncodeEntityUpdate(DecodeEntityUpdate(s).value) == s
  {
    LittleEndianOfValue(s[0..4]);
    assert s == s[0..4] + s[4..8] + s[8..12] + s[12..16] + s[16..20];
  }

  /** A `bool` stored in one byte. */
  function BoolByte(b: bool): (r: byte)
    ensures (r != 0) == b && r <= 1
  {
    if b then 1 else 0
  }

  /** `PlayerInputPacket` as the header declares it: one byte per flag. */
  datatype PlayerInputPacket = PlayerInputPacket(up: bool, down: bool, left: bool, right: bool)

  const PLAYER_INPUT_SIZE: nat := 4

  function EncodePlayerInput(p: PlayerInputPacket): (r: seq<byte>)
    ensures |r| == PLAYER_INPUT_SIZE
    ensures (r[0] != 0) == p.up && (r[1] != 0) == p.down && (r[2] != 0) == p.left && (r[3] != 0) == p.right
  {
    [BoolByte(p.up), BoolByte(p.down), BoolByte(p.left), BoolByte(p.right)]
  }

  function DecodePlayerInput(s: seq<byte>): (r: Option<PlayerInputPacket>)
    ensures r.Some? <==> |s| >= PLAYER_INPUT_SIZE
  {
    if |s| < PLAYER_INPUT_SIZE then None
    else Some(PlayerInputPacket(s[0] != 0, s[1] != 0, s[2] != 0, s[3] != 0))
  }

  lemma PlayerInputRoundTrip(p: PlayerInputPacket)
    ensures DecodePlayerInput(EncodePlayerInput(p)) == Some(p)
  {
  }

  /** Four bytes re-encode to themselves exactly when each holds a canonical bool (0 or 1). */
  lemma PlayerInputBytesRoundTrip(s: seq<byte>)
    requires |s| == PLAYER_INPUT_SIZE
    ensures EncodePlayerInput(DecodePlayerInput(s).value) == s <==> forall i | 0 <= i < 4 :: s[i] <= 1
  {
    if forall i | 0 <= i < 4 :: s[i] <= 1 {
      assert s == [s[0], s[1], s[2], s[3]];
    }
  }

  // The records below are used by the client and the server but declared in
  // no shown header: the connect request and response bodies, the six-flag
  // input body, the extra tags, and the extended entity-update record. Their
  // sizes, offsets and tags are parameters of the model, gathered in a Layout.

  /** The entity-update record as the client handlers read it. */
  datatype EntityUpdateView = EntityUpdateView(
    entityId: nat, kind: int, score: int, level: int, life: int, entityId2: nat,
    x: real, y: real, dx: real, dy: real)

  /** `GameStatsPacket` as `handleGameStats` reads it. */
  datatype GameStatsView = GameStatsView(currentLevel: int, enemiesKilled: int, currentScore: int, lifeRemaining: int)

  /** `BestScorePacket` as `handleBestScore` reads it. */
  datatype BestScoreView = BestScoreView(bestTime: int, gamesWon: int, totalPlaytime: int, avgScore: real)

  datatype Layout = Layout(
    // ConnectRequestPacket: its size and where its `char username[]` lies.
    connectRequestSize: nat, usernameOffset: nat, usernameSize: nat,
    // ConnectResponsePacket: its size, the `success` byte and the `playerId` field.
    connectResponseSize: nat, successOffset: nat, playerIdOffset: nat, playerIdWidth: nat,
    // The PlayerInputPacket the builders fill: its size and its `space` and `ultimate` bytes.
    inputSize: nat, spaceOffset: nat, ultimateOffset: nat,
    // The tags that `PacketType` does not declare.
    entityDeath: byte, gameStats: byte, bestScore: byte, endGameState: byte, looseGameState: byte,
    // The records read by the client, with the readers of their fields.
    updateSize: nat, readUpdate: seq<byte> -> EntityUpdateView,
    statsSize: nat, readStats: seq<byte> -> GameStatsView,
    bestScoreSize: nat, readBestScore: seq<byte> -> BestScoreView)
  {
    /** The fields lie inside their records and do not overlap. */
    predicate Valid()
    {
      usernameSize >= 1 && usernameOffset + usernameSize <= connectRequestSize &&
      successOffset < connectResponseSize && playerIdOffset + playerIdWidth <= connectResponseSize &&
      (successOffset < playerIdOffset || playerIdOffset + playerIdWidth <= successOffset) &&
      // up, down, left and right keep the first four bytes, as in the declared record.
      PLAYER_INPUT_SIZE <= spaceOffset < inputSize && PLAYER_INPUT_SIZE <= ultimateOffset < inputSize &&
      spaceOffset != ultimateOffset
    }
  }

  /** The six flags an input body carries, in the order the builders write them. */
  datatype InputFlags = InputFlags(up: bool, down: bool, left: bool, right: bool, space: bool, ultimate: bool)

  /** The six-flag input body: the four declared bytes, then `space` and `ultimate` at their offsets, zero elsewhere. */
  predicate IsInputBody(L: Layout, body: seq<byte>, f: InputFlags)
    requires L.Valid()
  {
    |body| == L.inputSize &&
    body[..PLAYER_INPUT_SIZE] == EncodePlayerInput(PlayerInputPacket(f.up, f.down, f.left, f.right)) &&
    body[L.spaceOffset] == BoolByte(f.space) && body[L.ultimateOffset] == BoolByte(f.ultimate) &&
    forall i | PLAYER_INPUT_SIZE <= i < |body| && i != L.spaceOffset && i != L.ultimateOffset :: body[i] == 0
  }

  /** The flags a receiver reads back from an input body. */
  function ReadInputFlags(L: Layout, body: seq<byte>): (r: InputFlags)
    requires L.Valid() && |body| == L.inputSize
    ensures (forall i | 0 <= i < |body| :: body[i] == 0) <==>
      (r == InputFlags(false, false, false, false, false, false) &&
       forall i | 0 <= i < |body| && i != 0 && i != 1 && i != 2 && i != 3 && i != L.spaceOffset && i != L.ultimateOffset :: body[i] == 0)
    ensures r.up == (body[0] != 0) && r.down == (body[1] != 0) && r.left == (body[2] != 0) && r.right == (body[3] != 0)
    ensures r.space == (body[L.spaceOffset] != 0) && r.ultimate == (body[L.ultimateOffset] != 0)
  {
    InputFlags(body[0] != 0, body[1] != 0, body[2] != 0, body[3] != 0, body[L.spaceOffset] != 0, body[L.ultimateOffset] != 0)
  }

  /** Whatever the input builder writes, the receiver reads the same six flags. */
  lemma InputBodyRoundTrip(L: Layout, body: seq<byte>, f: InputFlags)
    requires L.Valid() && IsInputBody(L, body, f)
    ensures ReadInputFlags(L, body) == f
  {
    assert body[..PLAYER_INPUT_SIZE][0] == body[0] && body[..PLAYER_INPUT_SIZE][1] == body[1];
    assert body[..PLAYER_INPUT_SIZE][2] == body[2] && body[..PLAYER_INPUT_SIZE][3] == body[3];
  }

  /** The connect-response body the server fills: `success` and `playerId`, zero elsewhere. */
  predicate IsConnectResponseBody(L: Layout, body: seq<byte>, success: bool, playerId: nat)
    requires L.Valid()
  {
    |body| == L.connectResponseSize &&
    body[L.successOffset] == BoolByte(success) &&
    body[L.playerIdOffset..L.playerIdOffset + L.playerIdWidth] == LittleEndian(playerId, L.playerIdWidth) &&
    forall i | 0 <= i < |body| && i != L.successOffset && !(L.playerIdOffset <= i < L.playerIdOffset + L.playerIdWidth) :: body[i] == 0
  }

  /** `response->success` and `response->playerId` as the client reads them. */
  function ReadConnectResponse(L: Layout, body: seq<byte>): (r: (bool, nat))
    requires L.Valid() && |body| >= L.connectResponseSize
    ensures r.1 < Pow256(L.playerIdWidth)
  {
    LittleEndianOfValue(body[L.playerIdOffset..L.playerIdOffset + L.playerIdWidth]);
    (body[L.successOffset] != 0, FromLittleEndian(body[L.playerIdOffset..L.playerIdOffset + L.playerIdWidth]))
  }

  /** A response the server filled reads back, on the client, as the same flag and player id. */
  lemma ConnectResponseRoundTrip(L: Layout, body: seq<byte>, success: bool, playerId: nat)
    requires L.Valid() && IsConnectResponseBody(L, body, success, playerId)
    requires playerId < Pow256(L.playerIdWidth)
    ensures ReadConnectResponse(L, body) == (success, playerId)
  {
    LittleEndianRoundTrip(playerId, L.playerIdWidth);
  }
}
