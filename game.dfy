// client/game/Game.hpp and client/game/Game.cpp: the client's mirror of the
// server's world. Datagrams are dispatched on their header's type byte to the
// handlers registered in `packetHandlers`; the handlers keep the local entity
// store in step with the server and move the game between its states. Sprites,
// textures, sounds and on-screen texts are not modelled.
module ClientGame {
  import opened Common
  import opened Components
  import opened Packets
  import opened Ecs
  import opened ClientNetwork

  /** client/utils/GameState.hpp */
  datatype GameState = Menu | Connecting | Playing | GameOver | Victory

  /** `PlayerStats`, with `avg_score` as a real. */
  datatype PlayerStats = PlayerStats(
    bestTime: int, totalGames: int, totalPlaytime: int, avgScore: real, currentLevel: int, enemiesKilled: int)

  /** The member initialisers of `PlayerStats`. */
  const DefaultStats: PlayerStats := PlayerStats(0, 0, 0, 0.0, 1, 0)

  /** The handlers `initPacketHandlers` installs, one per lambda. */
  datatype Handler =
    | OnConnectResponse | OnEntityDeath | OnEntityUpdate | OnBestScore | OnGameStats | OnEndGame | OnLose

  /** `static_cast<uint32_t>(-1)`: the "no entity" value of a death record's two ids. */
  const NO_ENTITY: nat := 0xFFFF_FFFF

  /** The registrations of `initPacketHandlers`, in program order. */
  function Registrations(L: Layout): seq<(byte, Handler)>
  {
    [(CONNECT_RESPONSE, OnConnectResponse), (L.entityDeath, OnEntityDeath), (ENTITY_UPDATE, OnEntityUpdate),
     (L.bestScore, OnBestScore), (L.gameStats, OnGameStats), (L.endGameState, OnEndGame),
     (L.looseGameState, OnLose)]
  }

  /** The handler the last registration of type `t` in `regs` installs, if any registers it. */
  function LastHandler(regs: seq<(byte, Handler)>, t: byte): Option<Handler>
    decreases |regs|
  {
    if regs == [] then None
    else match LastHandler(regs[1..], t)
      case Some(h) => Some(h)
      case None => if regs[0].0 == t then Some(regs[0].1) else None
  }

  /**
   * `packetHandlers[t] = h` for each registration in order, starting from the
   * table `m`: a later registration of a type replaces the earlier handler, and
   * types nobody registers keep theirs.
   */
  function Register(m: map<byte, Handler>, regs: seq<(byte, Handler)>): (r: map<byte, Handler>)
    ensures forall t :: t in r <==> t in m || LastHandler(regs, t).Some?
    ensures forall t | t in r :: r[t] == if LastHandler(regs, t).Some? then LastHandler(regs, t).value else m[t]
    decreases |regs|
  {
    if regs == [] then m else Register(m[regs[0].0 := regs[0].1], regs[1..])
  }

  /**
   * The table `initPacketHandlers` builds: the two declared types and the five
   * layout tags, each with its own handler unless a later tag collides with it.
   */
  lemma HandlerTable(L: Layout)
    ensures var m := Register(map[], Registrations(L));
      m.Keys == {CONNECT_RESPONSE, L.entityDeath, ENTITY_UPDATE, L.bestScore, L.gameStats, L.endGameState, L.looseGameState} &&
      m[L.looseGameState] == OnLose &&
      (L.endGameState != L.looseGameState ==> m[L.endGameState] == OnEndGame) &&
      (ENTITY_UPDATE !in {L.bestScore, L.gameStats, L.endGameState, L.looseGameState} ==> m[ENTITY_UPDATE] == OnEntityUpdate) &&
      (CONNECT_RESPONSE !in {L.entityDeath, L.bestScore, L.gameStats, L.endGameState, L.looseGameState} ==>
         m[CONNECT_RESPONSE] == OnConnectResponse)
  {
    RegisterAppliesInOrder(map[], L);
  }

  /** How many body bytes a handler reads after the header (none for the two end-of-game handlers). */
  function BodySize(L: Layout, h: Handler): nat
  {
    match h
    case OnConnectResponse => L.connectResponseSize
    case OnEntityDeath => L.updateSize
    case OnEntityUpdate => L.updateSize
    case OnBestScore => L.bestScoreSize
    case OnGameStats => L.statsSize
    case OnEndGame => 0
    case OnLose => 0
  }

  /**
   * The handler `handleNetworkMessage` runs for a datagram: none for one
   * shorter than a header or whose type byte has no registered handler.
   */
  function Route(handlers: map<byte, Handler>, data: seq<byte>): (r: Option<Handler>)
    ensures r.Some? <==> |data| >= HEADER_SIZE && data[3] in handlers
  {
    if |data| < HEADER_SIZE || data[3] !in handlers then None else Some(handlers[data[3]])
  }

  /** A datagram that starts with an encoded header is routed by that header's type alone. */
  lemma RouteFollowsHeader(handlers: map<byte, Handler>, h: Header, body: seq<byte>)
    requires h.Fits()
    ensures Route(handlers, EncodeHeader(h) + body) ==
      if h.packetType in handlers then Some(handlers[h.packetType]) else None
  {
    HeaderRoundTrip(h);
    var data := EncodeHeader(h) + body;
    assert data[..HEADER_SIZE] == EncodeHeader(h);
    assert data[3] == EncodeHeader(h)[3];
  }

  /** A death record names, in each of its two ids, an entity slot or no entity. */
  predicate DeathTargetsValid(v: EntityUpdateView)
  {
    (v.entityId == NO_ENTITY || v.entityId < MAX_ENTITIES) &&
    (v.entityId2 == NO_ENTITY || v.entityId2 < MAX_ENTITIES)
  }

  /** The ids a death record returns to the free list, in the order `destroyEntity` pushes them. */
  function DeathPushes(v: EntityUpdateView): seq<EntityId>
  {
    (if v.entityId != NO_ENTITY then [v.entityId] else []) +
    (if v.entityId2 != NO_ENTITY then [v.entityId2] else [])
  }

  /**
   * What the handlers read without checking the datagram's length: the routed
   * handler's whole record is present, and a death record names valid slots.
   */
  predicate Deliverable(L: Layout, handlers: map<byte, Handler>, data: seq<byte>)
  {
    match Route(handlers, data)
    case None => true
    case Some(h) =>
      |data| >= HEADER_SIZE + BodySize(L, h) &&
      (h == OnEntityDeath ==> DeathTargetsValid(UpdateRecord(L, data[HEADER_SIZE..])))
  }

  /** The entity record at the start of a body, as the two entity handlers read it. */
  function UpdateRecord(L: Layout, body: seq<byte>): EntityUpdateView
    requires |body| >= L.updateSize
  {
    L.readUpdate(body[..L.updateSize])
  }

  /** The game's own fields: everything a handler can change besides the entity mirror. */
  datatype Status = Status(
    myPlayerId: nat, currentState: GameState, playerLife: int, playerScore: int, currentLevel: int,
    playerIsDead: bool, playerStats: PlayerStats)

  /**
   * The game's own fields after handler `h` has read `body`. Each handler
   * touches only its own fields: only a connect response changes the player
   * id, only the end-of-game handlers change the state, only the two stats
   * records change the statistics, only the stats record and the local
   * player's entity update change the counters shown, and only a death record
   * marks the player dead, which is never undone.
   */
  function StatusAfter(L: Layout, h: Handler, body: seq<byte>, s: Status): (r: Status)
    requires L.Valid() && |body| >= BodySize(L, h)
    ensures r.myPlayerId != s.myPlayerId ==> h == OnConnectResponse
    ensures r.currentState != s.currentState ==> h == OnEndGame || h == OnLose
    ensures r.playerStats != s.playerStats ==> h == OnGameStats || h == OnBestScore
    ensures (r.playerLife, r.playerScore, r.currentLevel) != (s.playerLife, s.playerScore, s.currentLevel) ==>
      h == OnGameStats || h == OnEntityUpdate
    ensures r.playerIsDead != s.playerIsDead ==> h == OnEntityDeath && r.playerIsDead
  {
    match h
    case OnConnectResponse => s.(myPlayerId := PlayerIdAfter(L, body, s.myPlayerId))
    case OnEntityDeath => s.(playerIsDead := s.playerIsDead || s.playerLife <= 0)
    case OnEntityUpdate =>
      var v := UpdateRecord(L, body);
      if v.kind == 0 && v.entityId == s.myPlayerId then s.(playerScore := v.score, currentLevel := v.level, playerLife := v.life)
      else s
    case OnBestScore =>
      var b := L.readBestScore(body[..L.bestScoreSize]);
      s.(playerStats := s.playerStats.(bestTime := b.bestTime, totalGames := b.gamesWon,
                                       totalPlaytime := b.totalPlaytime, avgScore := b.avgScore))
    case OnGameStats =>
      var g := L.readStats(body[..L.statsSize]);
      s.(playerStats := s.playerStats.(currentLevel := g.currentLevel, enemiesKilled := g.enemiesKilled),
         currentLevel := g.currentLevel, playerScore := g.currentScore, playerLife := g.lifeRemaining)
    case OnEndGame => s.(currentState := Victory)
    case OnLose => s.(currentState := GameOver)
  }

  // ---------------------------------------------------------------------------
  // The connect handshake

  /** `myPlayerId` after a connect response: the response's id when `success` is set. */
  function PlayerIdAfter(L: Layout, body: seq<byte>, current: nat): (r: nat)
    requires L.Valid() && |body| >= L.connectResponseSize
    ensures ReadConnectResponse(L, body).0 ==> r == ReadConnectResponse(L, body).1
    ensures !ReadConnectResponse(L, body).0 ==> r == current
  {
    var (success, playerId) := ReadConnectResponse(L, body);
    if success then playerId else current
  }

  /** The condition of the connect wait loop in `Game::run`: `!myPlayerId && currentState == CONNECTING`. */
  predicate StillConnecting(myPlayerId: nat, state: GameState)
  {
    myPlayerId == 0 && state == Connecting
  }

  /**
   * Starting from `myPlayerId` = 0, a connect response ends the wait exactly
   * when it is successful and carries a non-zero id.
   */
  lemma ConnectWaitEnds(L: Layout, body: seq<byte>)
    requires L.Valid() && |body| >= L.connectResponseSize
    ensures !StillConnecting(PlayerIdAfter(L, body, 0), Connecting) <==>
      ReadConnectResponse(L, body).0 && ReadConnectResponse(L, body).1 != 0
  {
  }

  /** So the server's answer to the first client, player id 0, leaves that client waiting. */
  lemma PlayerZeroKeepsWaiting(L: Layout, body: seq<byte>)
    requires L.Valid() && IsConnectResponseBody(L, body, true, 0)
    ensures StillConnecting(PlayerIdAfter(L, body, 0), Connecting)
  {
    LittleEndianRoundTrip(0, L.playerIdWidth);
    ConnectResponseRoundTrip(L, body, true, 0);
  }

  // ---------------------------------------------------------------------------
  // Entity records

  /** The kind-specific component `handleEntityUpdate` gives a new entity, by the record's `type`. */
  function KindComponent(kind: int): (r: Option<Component>)
    ensures r.Some? <==> 1 <= kind <= 8
    ensures kind == 1 || kind == 5 ==> r == Some(Projectile(10.0, 1, false, false))
    ensures kind == 6 ==> r == Some(HealthBonus(3))
    ensures kind == 7 ==> r == Some(Wall(3))
    ensures 2 <= kind <= 4 || kind == 8 ==> r.Some? && r.value.Enemy? && r.value.tag == (if kind == 8 then 3 else 1)
  {
    if kind == 1 || kind == 5 then Some(Projectile(10.0, 1, false, false))
    else if kind == 6 then Some(HealthBonus(3))
    else if 2 <= kind <= 4 then Some(Enemy(1, 0.0))
    else if kind == 7 then Some(Wall(3))
    else if kind == 8 then Some(Enemy(3, 0.0))
    else None
  }

  /**
   * The RenderComponent a new entity gets: the defaults, with the texture
   * rectangle and animation strip of its kind. Every one can be animated:
   * at least one frame, starting at frame 0.
   */
  function SpawnRender(kind: int): (r: Component)
    ensures r.Render? && r.animationTimer == 0.0 && r.currentFrame == 0 && r.frameTime == 0.1
    ensures r.frameCount >= 1 && r.frameWidth > 0 && r.frameHeight > 0
    ensures !(0 <= kind <= 8) ==> r == DefaultRender
  {
    var d := DefaultRender;
    if kind == 0 then d.(textureRect := Rect(0, 0, 33, 17))
    else if kind == 1 then d.(textureRect := Rect(232, 58, 16, 16))
    else if kind == 5 then d.(textureRect := Rect(168, 342, 37, 31), frameWidth := 37, frameHeight := 31, frameCount := 3)
    else if kind == 6 then d.(textureRect := Rect(7, 11, 130, 130), frameWidth := 130, frameHeight := 130, frameCount := 1)
    else if kind == 2 then d.(textureRect := Rect(0, 0, 36, 34), frameWidth := 33, frameHeight := 34, frameCount := 3)
    else if kind == 3 then d.(textureRect := Rect(33, 1, 34, 28), frameWidth := 53, frameHeight := 54, frameCount := 3)
    else if kind == 4 then d.(textureRect := Rect(0, 0, 49, 52), frameWidth := 49, frameHeight := 52, frameCount := 3)
    else if kind == 7 then d.(textureRect := Rect(0, 0, 167, 587), frameWidth := 165, frameHeight := 590, frameCount := 1)
    else if kind == 8 then d.(textureRect := Rect(0, 0, 100, 34), frameWidth := 33, frameHeight := 34, frameCount := 3)
    else d
  }

  /**
   * The components of an entity the client creates from an update record:
   * Position and Velocity from the record, the kind's own component, a Render.
   */
  function Spawned(v: EntityUpdateView): (r: map<Kind, Component>)
    ensures PositionKind in r && r[PositionKind] == Position(v.x, v.y)
    ensures VelocityKind in r && r[VelocityKind] == Velocity(v.dx, v.dy)
    ensures RenderKind in r && r[RenderKind] == SpawnRender(v.kind)
    ensures PlayerKind !in r
    ensures ProjectileKind in r <==> v.kind == 1 || v.kind == 5
    ensures EnemyKind in r <==> 2 <= v.kind <= 4 || v.kind == 8
    ensures HealthBonusKind in r <==> v.kind == 6
    ensures WallKind in r <==> v.kind == 7
    ensures forall k | k in r :: KindOf(r[k]) == k
  {
    var moving := map[PositionKind := Position(v.x, v.y), VelocityKind := Velocity(v.dx, v.dy)];
    var withKind := match KindComponent(v.kind)
      case None => moving
      case Some(c) => moving[KindOf(c) := c];
    withKind[RenderKind := SpawnRender(v.kind)]
  }

  /** A spawned enemy is a level-1 enemy for kinds 2-4 and the boss (tag 3) for kind 8. */
  lemma SpawnedEnemyTag(v: EntityUpdateView)
    requires 2 <= v.kind <= 4 || v.kind == 8
    ensures Spawned(v)[EnemyKind].Enemy? && Spawned(v)[EnemyKind].tag == (if v.kind == 8 then 3 else 1)
  {
  }

  /** A write through `getComponent<T>(e)`: changes the view only when the entity has T. */
  function Overwrite(view: map<Kind, Component>, c: Component): (r: map<Kind, Component>)
    ensures r.Keys == view.Keys
    ensures KindOf(c) in view ==> r[KindOf(c)] == c
    ensures forall k | k in view && k != KindOf(c) :: r[k] == view[k]
  {
    if KindOf(c) in view then view[KindOf(c) := c] else view
  }

  /** The projectile an enemy turns into when a kind-1 record names it. */
  const ConvertedProjectile: Component := Projectile(10.0, 1, false, false)

  /**
   * `updateExistingEntity` on an entity's components `view`, with `hasRender`
   * and `hasVelocity` telling whether those vectors exist (a missing one makes
   * `getComponent` throw, which `handleEntityUpdate` catches, ending the update).
   */
  function Refreshed(view: map<Kind, Component>, v: EntityUpdateView, hasRender: bool, hasVelocity: bool): (r: map<Kind, Component>)
    ensures WellKinded(view) ==> WellKinded(r)
    ensures r.Keys <= view.Keys + {ProjectileKind}
    ensures forall k | k in view && k != EnemyKind && k != PositionKind :: k in r
    ensures forall k | k in view && k != PositionKind && k != VelocityKind && k != ProjectileKind && k != EnemyKind :: r[k] == view[k]
  {
    var converts := v.kind == 1 && EnemyKind in view;
    var stripped := if converts then view - {EnemyKind, PositionKind} else view;
    if converts && !hasRender then stripped
    else
      var w := if converts then stripped[ProjectileKind := ConvertedProjectile] else stripped;
      if !hasVelocity then w else Overwrite(Overwrite(w, Position(v.x, v.y)), Velocity(v.dx, v.dy))
  }

  /** An ordinary update moves the entity: new position and velocity, nothing else touched. */
  lemma RefreshMoves(view: map<Kind, Component>, v: EntityUpdateView)
    requires PositionKind in view && VelocityKind in view && !(v.kind == 1 && EnemyKind in view)
    ensures var r := Refreshed(view, v, true, true);
      r.Keys == view.Keys && r[PositionKind] == Position(v.x, v.y) && r[VelocityKind] == Velocity(v.dx, v.dy) &&
      forall k | k in view && k != PositionKind && k != VelocityKind :: r[k] == view[k]
  {
  }

  /**
   * A kind-1 record for an enemy turns it into a projectile: it loses Enemy and
   * Position and gains the projectile component, whatever else happens.
   */
  lemma RefreshConvertsEnemy(view: map<Kind, Component>, v: EntityUpdateView, hasVelocity: bool)
    requires v.kind == 1 && EnemyKind in view
    ensures var r := Refreshed(view, v, true, hasVelocity);
      EnemyKind !in r && PositionKind !in r && ProjectileKind in r && r[ProjectileKind] == ConvertedProjectile &&
      (VelocityKind in r <==> VelocityKind in view)
  {
  }

  /** Without a Velocity vector an ordinary update changes nothing: the throw comes before any write. */
  lemma RefreshWithoutVelocityVector(view: map<Kind, Component>, v: EntityUpdateView, hasRender: bool)
    requires !(v.kind == 1 && EnemyKind in view)
    ensures Refreshed(view, v, hasRender, false) == view
  {
  }

  /**
   * An entity's components after an update record for it: created afresh when
   * it has no Position, refreshed otherwise.
   */
  function Mirrored(view: map<Kind, Component>, v: EntityUpdateView, hasRender: bool, hasVelocity: bool): (r: map<Kind, Component>)
    ensures WellKinded(view) ==> WellKinded(r)
    ensures RenderKind in view ==> RenderKind in r
    ensures PositionKind in r <==> !(PositionKind in view && v.kind == 1 && EnemyKind in view)
  {
    if PositionKind in view then Refreshed(view, v, hasRender, hasVelocity) else Spawned(v)
  }

  // ---------------------------------------------------------------------------
  // Finding: the bound check of handleEntityUpdate comes after the mask read

  /** The steps of `handleEntityUpdate` that matter for the id's bound. */
  datatype UpdateStep = ReadMask(index: nat) | Ignore | Spawn | Refresh

  /**
   * The steps as written: `hasComponent<Position>(entity)` reads
   * `componentMasks[entity]`, and only an entity without Position is then
   * checked against MAX_ENTITIES.
   */
  function UpdateStepsAsWritten(entityId: nat, hasPosition: bool): seq<UpdateStep>
  {
    [ReadMask(entityId)] +
    if hasPosition then [Refresh] else if entityId >= MAX_ENTITIES then [Ignore] else [Spawn]
  }

  /** The steps with the bound checked first, as the model's `HandleEntityUpdate` does. */
  function UpdateSteps(entityId: nat, hasPosition: bool): seq<UpdateStep>
  {
    if entityId >= MAX_ENTITIES then [Ignore]
    else [ReadMask(entityId)] + if hasPosition then [Refresh] else [Spawn]
  }

  /** Every mask read is inside the 1000-entry `componentMasks` array. */
  predicate ReadsInBounds(steps: seq<UpdateStep>)
  {
    forall i | 0 <= i < |steps| && steps[i].ReadMask? :: steps[i].index < MAX_ENTITIES
  }

  /** The id 1000, which the guard is there to reject, is first used to index `componentMasks`. */
  lemma UpdateAsWrittenReadsPastMasks()
    ensures !ReadsInBounds(UpdateStepsAsWritten(MAX_ENTITIES, false))
    ensures Ignore in UpdateStepsAsWritten(MAX_ENTITIES, false)
  {
    assert UpdateStepsAsWritten(MAX_ENTITIES, false)[0] == ReadMask(MAX_ENTITIES);
  }

  /** With the guard first no read leaves the array, and exactly the out-of-range ids are ignored. */
  lemma UpdateStepsInBounds(entityId: nat, hasPosition: bool)
    ensures ReadsInBounds(UpdateSteps(entityId, hasPosition))
    ensures Ignore in UpdateSteps(entityId, hasPosition) <==> entityId >= MAX_ENTITIES
    ensures entityId < MAX_ENTITIES ==> UpdateSteps(entityId, hasPosition) == UpdateStepsAsWritten(entityId, hasPosition)
  {
  }

  // ---------------------------------------------------------------------------
  // The Game object

  class Game {
    var myPlayerId: nat
    var currentState: GameState
    var playerLife: int
    var playerScore: int
    var currentLevel: int
    var playerIsDead: bool
    var playerStats: PlayerStats
    var packetHandlers: map<byte, Handler>
    const entities: EntityManager
    const network: NetworkClient
    /** The sizes, offsets and tags of the records no shown header declares. */
    const layout: Layout

    ghost predicate Valid()
      reads this, entities, entities.componentMasks, entities.registry
    {
      entities.Valid() && layout.Valid()
    }

    /** `Game()`: the member initialisers, then `initPacketHandlers`. */
    constructor (entities: EntityManager, network: NetworkClient, layout: Layout)
      requires entities.Valid() && layout.Valid()
      ensures Valid() && this.entities == entities && this.network == network && this.layout == layout
      ensures myPlayerId == 0 && currentState == Menu
      ensures playerLife == 3 && playerScore == 0 && currentLevel == 1 && !playerIsDead
      ensures playerStats == DefaultStats
      ensures packetHandlers == Register(map[], Registrations(layout))
    {
      myPlayerId := 0;
      currentState := Menu;
      playerLife := 3;
      playerScore := 0;
      currentLevel := 1;
      playerIsDead := false;
      playerStats := DefaultStats;
      packetHandlers := map[];
      this.entities := entities;
      this.network := network;
      this.layout := layout;
      new;
      InitPacketHandlers();
    }

    /** `initPacketHandlers`: one assignment per handler, each replacing whatever the type had. */
    method InitPacketHandlers()
      modifies this`packetHandlers
      ensures packetHandlers == Register(old(packetHandlers), Registrations(layout))
    {
      ghost var m0 := packetHandlers;
      packetHandlers := packetHandlers[CONNECT_RESPONSE := OnConnectResponse];
      packetHandlers := packetHandlers[layout.entityDeath := OnEntityDeath];
      packetHandlers := packetHandlers[ENTITY_UPDATE := OnEntityUpdate];
      packetHandlers := packetHandlers[layout.bestScore := OnBestScore];
      packetHandlers := packetHandlers[layout.gameStats := OnGameStats];
      packetHandlers := packetHandlers[layout.endGameState := OnEndGame];
      packetHandlers := packetHandlers[layout.looseGameState := OnLose];
      RegisterAppliesInOrder(m0, layout);
    }

    /** `handleConnectResponse`: adopts the server's player id when `success` is set. */
    method HandleConnectResponse(body: seq<byte>)
      requires Valid() && |body| >= layout.connectResponseSize
      modifies this`myPlayerId
      ensures myPlayerId == PlayerIdAfter(layout, body, old(myPlayerId))
    {
      var (success, playerId) := ReadConnectResponse(layout, body);
      if success {
        myPlayerId := playerId;
      }
    }

    /** `handleGameStats`: the level, score and lives shown, and the stats record. */
    method HandleGameStats(stats: GameStatsView)
      modifies this`playerStats, this`currentLevel, this`playerScore, this`playerLife
      ensures playerStats == old(playerStats).(currentLevel := stats.currentLevel, enemiesKilled := stats.enemiesKilled)
      ensures currentLevel == stats.currentLevel && playerScore == stats.currentScore && playerLife == stats.lifeRemaining
    {
      playerStats := playerStats.(currentLevel := stats.currentLevel, enemiesKilled := stats.enemiesKilled);
      currentLevel := stats.currentLevel;
      playerScore := stats.currentScore;
      playerLife := stats.lifeRemaining;
    }

    /** `handleBestScore`: the four long-term statistics (`games_won` lands in `total_games`). */
    method HandleBestScore(best: BestScoreView)
      modifies this`playerStats
      ensures playerStats == old(playerStats).(bestTime := best.bestTime, totalGames := best.gamesWon,
                                               totalPlaytime := best.totalPlaytime, avgScore := best.avgScore)
    {
      playerStats := playerStats.(bestTime := best.bestTime, totalGames := best.gamesWon,
                                  totalPlaytime := best.totalPlaytime, avgScore := best.avgScore);
    }

    /** `handleEndGame`. */
    method HandleEndGame()
      modifies this`currentState
      ensures currentState == Victory
    {
      currentState := Victory;
    }

    /** `handleLose`. */
    method HandleLose()
      modifies this`currentState
      ensures currentState == GameOver
    {
      currentState := GameOver;
    }

    /**
     * `handleEntityUpdate`, with the bound on the id checked before the mask is
     * read. The local player's record also carries the score, level and lives.
     * An entity without Position is created afresh; one with Position is
     * refreshed by `updateExistingEntity`.
     */
    method HandleEntityUpdate(v: EntityUpdateView)
      requires Valid()
      modifies this`playerScore, this`currentLevel, this`playerLife
      modifies entities`componentArrays, entities.componentMasks, entities.registry
      ensures Valid()
      ensures v.kind == 0 && v.entityId == myPlayerId ==>
        playerScore == v.score && currentLevel == v.level && playerLife == v.life
      ensures !(v.kind == 0 && v.entityId == myPlayerId) ==>
        playerScore == old(playerScore) && currentLevel == old(currentLevel) && playerLife == old(playerLife)
      ensures v.entityId < MAX_ENTITIES ==>
        entities.ComponentsOf(v.entityId) ==
          Mirrored(old(entities.ComponentsOf(v.entityId)), v, old(entities.HasVector(RenderKind)), old(entities.HasVector(VelocityKind)))
      ensures forall e | 0 <= e < MAX_ENTITIES && e != v.entityId :: entities.ComponentsOf(e) == old(entities.ComponentsOf(e))
    {
      UpdateOwnStats(v);
      if v.entityId >= MAX_ENTITIES {
        return;
      }
      MirrorEntity(v);
    }

    /** The local player's counters, which a kind-0 record for `myPlayerId` carries. */
    method UpdateOwnStats(v: EntityUpdateView)
      modifies this`playerScore, this`currentLevel, this`playerLife
      ensures v.kind == 0 && v.entityId == myPlayerId ==>
        playerScore == v.score && currentLevel == v.level && playerLife == v.life
      ensures !(v.kind == 0 && v.entityId == myPlayerId) ==>
        playerScore == old(playerScore) && currentLevel == old(currentLevel) && playerLife == old(playerLife)
    {
      if v.kind == 0 && v.entityId == myPlayerId {
        playerScore := v.score;
        currentLevel := v.level;
        playerLife := v.life;
      }
    }

    /** The part of `handleEntityUpdate` inside its `try`, for an id below MAX_ENTITIES. */
    method MirrorEntity(v: EntityUpdateView)
      requires Valid() && v.entityId < MAX_ENTITIES
      modifies entities`componentArrays, entities.componentMasks, entities.registry
      ensures Valid()
      ensures entities.ComponentsOf(v.entityId) ==
        Mirrored(old(entities.ComponentsOf(v.entityId)), v, old(entities.HasVector(RenderKind)), old(entities.HasVector(VelocityKind)))
      ensures forall e | 0 <= e < MAX_ENTITIES && e != v.entityId :: entities.ComponentsOf(e) == old(entities.ComponentsOf(e))
    {
      var hasPosition := entities.HasComponent(v.entityId, PositionKind);
      if !hasPosition {
        SpawnEntity(v);
      } else {
        UpdateExistingEntity(v);
      }
    }

    /** The creation branch of `handleEntityUpdate`: reset, then Position, Velocity, the kind's component, Render. */
    method SpawnEntity(v: EntityUpdateView)
      requires Valid() && v.entityId < MAX_ENTITIES
      modifies entities`componentArrays, entities.componentMasks, entities.registry
      ensures Valid()
      ensures entities.ComponentsOf(v.entityId) == Spawned(v)
      ensures forall e | 0 <= e < MAX_ENTITIES && e != v.entityId :: entities.ComponentsOf(e) == old(entities.ComponentsOf(e))
    {
      var e := v.entityId;
      entities.ResetEntityComponents(e);
      entities.AddComponent(e, Position(v.x, v.y));
      entities.AddComponent(e, Velocity(v.dx, v.dy));
      match KindComponent(v.kind) {
        case None =>
        case Some(c) => entities.AddComponent(e, c);
      }
      entities.AddComponent(e, SpawnRender(v.kind));
    }

    /**
     * `updateExistingEntity`. A `getComponent` on a type whose vector was never
     * created throws; the exception ends the update (it is caught by
     * `handleEntityUpdate`).
     */
    method UpdateExistingEntity(v: EntityUpdateView)
      requires Valid() && v.entityId < MAX_ENTITIES && PositionKind in entities.ComponentsOf(v.entityId)
      modifies entities`componentArrays, entities.componentMasks, entities.registry
      ensures Valid()
      ensures entities.ComponentsOf(v.entityId) ==
        Refreshed(old(entities.ComponentsOf(v.entityId)), v, old(entities.HasVector(RenderKind)), old(entities.HasVector(VelocityKind)))
      ensures forall e | 0 <= e < MAX_ENTITIES && e != v.entityId :: entities.ComponentsOf(e) == old(entities.ComponentsOf(e))
    {
      var e := v.entityId;
      assert entities.HasVector(PositionKind);
      if v.kind == 1 {
        var isEnemy := entities.HasComponent(e, EnemyKind);
        if isEnemy {
          var completed := ConvertToProjectile(e);
          if !completed {
            return;
          }
        }
      }
      MoveEntity(v);
    }

    /**
     * The kind-1 branch of `updateExistingEntity` for an enemy: Enemy and
     * Position are erased, then `getComponent<RenderComponent>` is read (and
     * throws without a Render vector), then the projectile component is added.
     */
    method ConvertToProjectile(e: EntityId) returns (completed: bool)
      requires Valid() && e < MAX_ENTITIES && EnemyKind in entities.ComponentsOf(e)
      modifies entities`componentArrays, entities.componentMasks, entities.registry
      ensures Valid()
      ensures completed == old(entities.HasVector(RenderKind))
      ensures entities.ComponentsOf(e) ==
        if completed then (old(entities.ComponentsOf(e)) - {EnemyKind, PositionKind})[ProjectileKind := ConvertedProjectile]
        else old(entities.ComponentsOf(e)) - {EnemyKind, PositionKind}
      ensures forall k | k != ProjectileKind :: entities.HasVector(k) == old(entities.HasVector(k))
      ensures forall e' | 0 <= e' < MAX_ENTITIES && e' != e :: entities.ComponentsOf(e') == old(entities.ComponentsOf(e'))
    {
      StripEnemy(e);
      completed := AddProjectileIfRenderable(e);
    }

    /** `getComponent<RenderComponent>(e)` (which throws without a Render vector), then `addComponent(e, Projectile{...})`. */
    method AddProjectileIfRenderable(e: EntityId) returns (completed: bool)
      requires Valid() && e < MAX_ENTITIES
      modifies entities`componentArrays, entities.componentMasks, entities.registry
      ensures Valid()
      ensures completed == old(entities.HasVector(RenderKind))
      ensures entities.ComponentsOf(e) ==
        if completed then old(entities.ComponentsOf(e))[ProjectileKind := ConvertedProjectile] else old(entities.ComponentsOf(e))
      ensures forall k | k != ProjectileKind :: entities.HasVector(k) == old(entities.HasVector(k))
      ensures forall e' | 0 <= e' < MAX_ENTITIES && e' != e :: entities.ComponentsOf(e') == old(entities.ComponentsOf(e'))
    {
      completed := entities.VectorExists(RenderKind);
      if completed {
        entities.AddComponent(e, ConvertedProjectile);
      }
    }

    /** `getComponents<Enemy>().erase(e)` then `getComponents<Position>().erase(e)`. */
    method StripEnemy(e: EntityId)
      requires Valid() && e < MAX_ENTITIES
      modifies entities.componentMasks, entities.registry
      ensures Valid()
      ensures entities.ComponentsOf(e) == old(entities.ComponentsOf(e)) - {EnemyKind, PositionKind}
      ensures forall k :: entities.HasVector(k) == old(entities.HasVector(k))
      ensures forall e' | 0 <= e' < MAX_ENTITIES && e' != e :: entities.ComponentsOf(e') == old(entities.ComponentsOf(e'))
    {
      ghost var view0 := entities.ComponentsOf(e);
      entities.EraseComponent(e, EnemyKind);
      entities.EraseComponent(e, PositionKind);
      RemoveBoth(view0, EnemyKind, PositionKind);
    }

    /**
     * The writes through `getComponent<Position>` and `getComponent<Velocity>`,
     * which both come after the two reads: without a Velocity vector the
     * second read throws and nothing is written.
     */
    method MoveEntity(v: EntityUpdateView)
      requires Valid() && v.entityId < MAX_ENTITIES && entities.HasVector(PositionKind)
      modifies entities`componentArrays, entities.registry
      ensures Valid()
      ensures entities.ComponentsOf(v.entityId) ==
        if old(entities.HasVector(VelocityKind))
        then Overwrite(Overwrite(old(entities.ComponentsOf(v.entityId)), Position(v.x, v.y)), Velocity(v.dx, v.dy))
        else old(entities.ComponentsOf(v.entityId))
      ensures forall e | 0 <= e < MAX_ENTITIES && e != v.entityId :: entities.ComponentsOf(e) == old(entities.ComponentsOf(e))
    {
      var e := v.entityId;
      var hasVelocity := entities.VectorExists(VelocityKind);
      if !hasVelocity {
        return;
      }
      entities.WriteComponent(e, Position(v.x, v.y));
      entities.WriteComponent(e, Velocity(v.dx, v.dy));
    }

    /**
     * `handleEntityDeath`: marks the local player dead once out of lives, then
     * removes the entity named by `entityId` and the projectile named by
     * `entityId2`, each unless it is the "no entity" value. Both are destroyed
     * (their masks cleared and their ids pushed on the free list).
     */
    method HandleEntityDeath(v: EntityUpdateView)
      requires Valid() && DeathTargetsValid(v)
      modifies this`playerIsDead, entities`availableEntities, entities.componentMasks, entities.registry
      ensures Valid()
      ensures playerIsDead == (old(playerIsDead) || playerLife <= 0)
      ensures entities.availableEntities == old(entities.availableEntities) + DeathPushes(v)
      ensures v.entityId != NO_ENTITY ==> entities.ComponentsOf(v.entityId) == map[]
      ensures v.entityId2 != NO_ENTITY ==> entities.ComponentsOf(v.entityId2) == map[]
      ensures forall e | 0 <= e < MAX_ENTITIES && e != v.entityId && e != v.entityId2 ::
        entities.ComponentsOf(e) == old(entities.ComponentsOf(e))
    {
      CheckPlayerDead();
      RemoveDeadEntity(v);
      RemoveDeadProjectile(v);
    }

    /** `if (playerLife <= 0) playerIsDead = true;` */
    method CheckPlayerDead()
      modifies this`playerIsDead
      ensures playerIsDead == (old(playerIsDead) || playerLife <= 0)
    {
      if playerLife <= 0 {
        playerIsDead := true;
      }
    }

    /** The first half of `handleEntityDeath`: Enemy, Player, Position and Velocity erased, then `destroyEntity`. */
    method RemoveDeadEntity(v: EntityUpdateView)
      requires Valid() && DeathTargetsValid(v)
      modifies entities`availableEntities, entities.componentMasks, entities.registry
      ensures Valid()
      ensures entities.availableEntities ==
        old(entities.availableEntities) + (if v.entityId != NO_ENTITY then [v.entityId] else [])
      ensures v.entityId != NO_ENTITY ==> entities.ComponentsOf(v.entityId) == map[]
      ensures forall e | 0 <= e < MAX_ENTITIES && e != v.entityId :: entities.ComponentsOf(e) == old(entities.ComponentsOf(e))
    {
      if v.entityId != NO_ENTITY {
        EraseDeadComponents(v.entityId);
        entities.DestroyEntity(v.entityId);
      }
    }

    /** The four guarded erasures of the dead entity, before it is destroyed. */
    method EraseDeadComponents(e: EntityId)
      requires Valid() && e < MAX_ENTITIES
      modifies entities.componentMasks, entities.registry
      ensures Valid()
      ensures entities.ComponentsOf(e) == old(entities.ComponentsOf(e)) - {EnemyKind, PlayerKind} - {PositionKind, VelocityKind}
      ensures forall e' | 0 <= e' < MAX_ENTITIES && e' != e :: entities.ComponentsOf(e') == old(entities.ComponentsOf(e'))
    {
      ErasePairIfPresent(e, EnemyKind, PlayerKind);
      ErasePairIfPresent(e, PositionKind, VelocityKind);
    }

    /** The second half: `getComponents<Projectile>().erase(entityId2)`, then `destroyEntity`. */
    method RemoveDeadProjectile(v: EntityUpdateView)
      requires Valid() && DeathTargetsValid(v)
      modifies entities`availableEntities, entities.componentMasks, entities.registry
      ensures Valid()
      ensures entities.availableEntities ==
        old(entities.availableEntities) + (if v.entityId2 != NO_ENTITY then [v.entityId2] else [])
      ensures v.entityId2 != NO_ENTITY ==> entities.ComponentsOf(v.entityId2) == map[]
      ensures forall e | 0 <= e < MAX_ENTITIES && e != v.entityId2 :: entities.ComponentsOf(e) == old(entities.ComponentsOf(e))
    {
      if v.entityId2 != NO_ENTITY {
        entities.EraseComponent(v.entityId2, ProjectileKind);
        entities.DestroyEntity(v.entityId2);
      }
    }

    /** Two consecutive `EraseIfPresent` calls. */
    method ErasePairIfPresent(e: EntityId, k1: Kind, k2: Kind)
      requires Valid() && e < MAX_ENTITIES
      modifies entities.componentMasks, entities.registry
      ensures Valid()
      ensures entities.ComponentsOf(e) == old(entities.ComponentsOf(e)) - {k1, k2}
      ensures forall e' | 0 <= e' < MAX_ENTITIES && e' != e :: entities.ComponentsOf(e') == old(entities.ComponentsOf(e'))
    {
      EraseIfPresent(e, k1);
      EraseIfPresent(e, k2);
      RemoveBoth(old(entities.ComponentsOf(e)), k1, k2);
    }

    /** `if (hasComponent<T>(e)) getComponents<T>().erase(e);` */
    method EraseIfPresent(e: EntityId, k: Kind)
      requires Valid() && e < MAX_ENTITIES
      modifies entities.componentMasks, entities.registry
      ensures Valid()
      ensures entities.ComponentsOf(e) == old(entities.ComponentsOf(e)) - {k}
      ensures forall e' | 0 <= e' < MAX_ENTITIES && e' != e :: entities.ComponentsOf(e') == old(entities.ComponentsOf(e'))
    {
      var present := entities.HasComponent(e, k);
      if present {
        entities.EraseComponent(e, k);
      } else {
        RemoveAbsent(old(entities.ComponentsOf(e)), k);
      }
    }

    /** The game's own fields, as one value. */
    function Fields(): Status
      reads this
    {
      Status(myPlayerId, currentState, playerLife, playerScore, currentLevel, playerIsDead, playerStats)
    }

    /**
     * What handler `h`, reading `body`, does to the entity mirror. An update
     * record mirrors its entity when the id is below MAX_ENTITIES; a death
     * record clears the entities it names and pushes their ids on the free
     * list; every other handler leaves the mirror alone. No other entity
     * changes.
     */
    twostate predicate MirrorAfter(h: Handler, body: seq<byte>)
      reads this, entities, entities.componentMasks, entities.registry
      requires entities.componentMasks.Length == MAX_ENTITIES && |body| >= BodySize(layout, h)
    {
      match h
      case OnEntityUpdate =>
        var v := UpdateRecord(layout, body);
        entities.availableEntities == old(entities.availableEntities) &&
        (v.entityId < MAX_ENTITIES ==>
           entities.ComponentsOf(v.entityId) ==
             Mirrored(old(entities.ComponentsOf(v.entityId)), v, old(entities.HasVector(RenderKind)), old(entities.HasVector(VelocityKind)))) &&
        forall e | 0 <= e < MAX_ENTITIES && e != v.entityId :: entities.ComponentsOf(e) == old(entities.ComponentsOf(e))
      case OnEntityDeath =>
        var v := UpdateRecord(layout, body);
        entities.availableEntities == old(entities.availableEntities) + DeathPushes(v) &&
        (v.entityId != NO_ENTITY && v.entityId < MAX_ENTITIES ==> entities.ComponentsOf(v.entityId) == map[]) &&
        (v.entityId2 != NO_ENTITY && v.entityId2 < MAX_ENTITIES ==> entities.ComponentsOf(v.entityId2) == map[]) &&
        forall e | 0 <= e < MAX_ENTITIES && e != v.entityId && e != v.entityId2 ::
          entities.ComponentsOf(e) == old(entities.ComponentsOf(e))
      case _ =>
        entities.availableEntities == old(entities.availableEntities) &&
        forall e | 0 <= e < MAX_ENTITIES :: entities.ComponentsOf(e) == old(entities.ComponentsOf(e))
    }

    /**
     * `handleNetworkMessage`: a datagram shorter than a header is dropped; one
     * whose type byte has a registered handler is passed to it with the body
     * offset `sizeof(PacketHeader)`; any other is ignored. The handler table
     * never changes.
     */
    method HandleNetworkMessage(data: seq<byte>)
      requires Valid() && Deliverable(layout, packetHandlers, data)
      modifies this, entities`componentArrays, entities`availableEntities, entities.componentMasks, entities.registry
      ensures Valid()
      ensures packetHandlers == old(packetHandlers)
      ensures Route(packetHandlers, data) == None ==>
        unchanged(this) && unchanged(entities, entities.componentMasks, entities.registry)
      ensures Route(packetHandlers, data).Some? ==>
        Fields() == StatusAfter(layout, Route(packetHandlers, data).value, data[HEADER_SIZE..], old(Fields())) &&
        MirrorAfter(Route(packetHandlers, data).value, data[HEADER_SIZE..])
    {
      if |data| < HEADER_SIZE {
        return;
      }
      var packetType := data[3];
      if packetType !in packetHandlers {
        return;
      }
      Dispatch(packetHandlers[packetType], data[HEADER_SIZE..]);
    }

    /** The call `handleNetworkMessage` makes once it has found the handler `h` for a datagram with body `body`. */
    method Dispatch(h: Handler, body: seq<byte>)
      requires Valid() && |body| >= BodySize(layout, h)
      requires h == OnEntityDeath ==> DeathTargetsValid(UpdateRecord(layout, body))
      modifies this, entities`componentArrays, entities`availableEntities, entities.componentMasks, entities.registry
      ensures Valid()
      ensures packetHandlers == old(packetHandlers)
      ensures Fields() == StatusAfter(layout, h, body, old(Fields()))
      ensures MirrorAfter(h, body)
    {
      if h == OnEntityDeath || h == OnEntityUpdate {
        DispatchEntityPacket(h, body);
      } else {
        DispatchStatePacket(h, body);
      }
    }

    /** The two handlers that change the entity mirror. */
    method DispatchEntityPacket(h: Handler, body: seq<byte>)
      requires Valid() && (h == OnEntityDeath || h == OnEntityUpdate) && |body| >= BodySize(layout, h)
      requires h == OnEntityDeath ==> DeathTargetsValid(UpdateRecord(layout, body))
      modifies this`playerScore, this`currentLevel, this`playerLife, this`playerIsDead
      modifies entities`componentArrays, entities`availableEntities, entities.componentMasks, entities.registry
      ensures Valid()
      ensures Fields() == StatusAfter(layout, h, body, old(Fields()))
      ensures MirrorAfter(h, body)
    {
      if h == OnEntityDeath {
        DispatchDeath(body);
      } else {
        DispatchUpdate(body);
      }
    }

    /** ENTITY_DEATH: `handleEntityDeath` on the record at the front of the body. */
    method DispatchDeath(body: seq<byte>)
      requires Valid() && |body| >= BodySize(layout, OnEntityDeath)
      requires DeathTargetsValid(UpdateRecord(layout, body))
      modifies this`playerIsDead
      modifies entities`componentArrays, entities`availableEntities, entities.componentMasks, entities.registry
      ensures Valid()
      ensures Fields() == StatusAfter(layout, OnEntityDeath, body, old(Fields()))
      ensures MirrorAfter(OnEntityDeath, body)
    {
      HandleEntityDeath(UpdateRecord(layout, body));
    }

    /** ENTITY_UPDATE: `handleEntityUpdate` on the record at the front of the body. */
    method DispatchUpdate(body: seq<byte>)
      requires Valid() && |body| >= BodySize(layout, OnEntityUpdate)
      modifies this`playerScore, this`currentLevel, this`playerLife
      modifies entities`componentArrays, entities`availableEntities, entities.componentMasks, entities.registry
      ensures Valid()
      ensures Fields() == StatusAfter(layout, OnEntityUpdate, body, old(Fields()))
      ensures MirrorAfter(OnEntityUpdate, body)
    {
      HandleEntityUpdate(UpdateRecord(layout, body));
    }

    /** The handlers that change only the game's own fields. */
    method DispatchStatePacket(h: Handler, body: seq<byte>)
      requires Valid() && h != OnEntityDeath && h != OnEntityUpdate && |body| >= BodySize(layout, h)
      modifies this`myPlayerId, this`playerStats, this`currentLevel, this`playerScore, this`playerLife, this`currentState
      ensures Valid()
      ensures Fields() == StatusAfter(layout, h, body, old(Fields()))
      ensures MirrorAfter(h, body)
    {
      match h {
        case OnConnectResponse => HandleConnectResponse(body);
        case OnBestScore => HandleBestScore(layout.readBestScore(body[..layout.bestScoreSize]));
        case OnGameStats => HandleGameStats(layout.readStats(body[..layout.statsSize]));
        case OnEndGame => HandleEndGame();
        case OnLose => HandleLose();
      }
    }

    /**
     * The input part of `handleEvents`: when any of the six flags is pressed,
     * one PLAYER_INPUT datagram carrying them is sent (the bytes of
     * `createPlayerInputPacket`, which `handleEvents` builds inline).
     */
    method SendInput(input: InputFlags)
      requires Valid()
      modifies network`sent
      ensures !AnyPressed(input) ==> network.sent == old(network.sent)
      ensures AnyPressed(input) ==>
        |network.sent| == |old(network.sent)| + 1 && network.sent[..|old(network.sent)|] == old(network.sent) &&
        var p := network.sent[|old(network.sent)|];
        |p| == HEADER_SIZE + layout.inputSize &&
        DecodeHeader(p) == Some(StandardHeader(PLAYER_INPUT, LengthField(|p|))) &&
        ReadInputFlags(layout, p[HEADER_SIZE..]) == input
    {
      if AnyPressed(input) {
        var packet := CreatePlayerInputPacket(layout, input);
        network.SendTo(packet);
      }
    }
  }

  lemma RemoveAbsent<K, V>(m: map<K, V>, k: K)
    requires k !in m
    ensures m - {k} == m
  {
  }

  lemma RemoveBoth<K, V>(m: map<K, V>, a: K, b: K)
    ensures m - {a} - {b} == m - {a, b}
  {
  }

  /** `input.up || input.down || input.left || input.right || input.space || input.Ultimate` */
  predicate AnyPressed(f: InputFlags)
  {
    f.up || f.down || f.left || f.right || f.space || f.ultimate
  }

  /** The seven assignments of `initPacketHandlers`, applied to any starting table, give `Register`. */
  lemma RegisterAppliesInOrder(m0: map<byte, Handler>, L: Layout)
    ensures Register(m0, Registrations(L)) ==
      m0[CONNECT_RESPONSE := OnConnectResponse][L.entityDeath := OnEntityDeath][ENTITY_UPDATE := OnEntityUpdate]
        [L.bestScore := OnBestScore][L.gameStats := OnGameStats][L.endGameState := OnEndGame][L.looseGameState := OnLose]
  {
    var r0 := Registrations(L);
    var r1 := r0[1..];
    var r2 := r1[1..];
    var r3 := r2[1..];
    var r4 := r3[1..];
    var r5 := r4[1..];
    var r6 := r5[1..];
    assert r6 == [(L.looseGameState, OnLose)] && r6[1..] == [];
    var m1 := m0[CONNECT_RESPONSE := OnConnectResponse];
    var m2 := m1[L.entityDeath := OnEntityDeath];
    var m3 := m2[ENTITY_UPDATE := OnEntityUpdate];
    var m4 := m3[L.bestScore := OnBestScore];
    var m5 := m4[L.gameStats := OnGameStats];
    var m6 := m5[L.endGameState := OnEndGame];
    var m7 := m6[L.looseGameState := OnLose];
    assert Register(m0, r0) == Register(m1, r1);
    assert Register(m1, r1) == Register(m2, r2);
    assert Register(m2, r2) == Register(m3, r3);
    assert Register(m3, r3) == Register(m4, r4);
    assert Register(m4, r4) == Register(m5, r5);
    assert Register(m5, r5) == Register(m6, r6);
    assert Register(m6, r6) == m7;
  }
}
