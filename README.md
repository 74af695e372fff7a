# R-Type core model

A Dafny model of the game-independent core of the R-Type client and server:

- the entity-component store:
  - `SparseArray`;
  - `EntityManager`, with its LIFO free list of ids 0..999, a component bitmask per entity, and per-type component vectors created lazily;
- the packed wire records and the byte builders of the client and the server;
- the client `Game`, which:
  - routes datagrams through its handler table;
  - keeps the local entity mirror in step with entity update and entity death records;
  - moves between the game states;
- the server `Manager`, which routes messages, and the server `NetworkManager`, which keeps the peer registry keyed by "ip:port";
- the shared `ShootSystem` (two cooldowns and the projectile a shot creates), `MovementSystem` (integrate, then clamp to the play area) and `AnimationSystem` (frame advance modulo `frameCount`);
- the two text-entry boxes.

Each class the C++ updates in place is a Dafny `class` whose methods are proved against specification functions:

| Specification function | Describes |
|---|---|
| `Grown`, `Inserted`, `Erased` | the slot vector |
| `ComponentsOf(e)` | an entity's components by type, read off its mask and the vectors |
| `Spawned`, `Refreshed`, `Mirrored` | the effect of an update record |
| `Registered`, `Payloads` | the peer registry and the callback payloads |
| `ShotComponents`, `Moved`, `AnimatedView` | the systems |
| `Edited` | one keystroke |

Lemmas then state what the source promises about those functions.

How the model treats the source:

- **Integers and bytes.** Integers are unbounded. Bytes are `byte = 0..255`. The C++ `%` on `int` is `TruncMod`. A u16 store keeps the low 16 bits (`LengthField`).
- **Floats.** Coordinates, velocities and timers are reals.
- **Time.** Clocks are integer milliseconds passed in as parameters.
- **External calls.** Sockets, threads, SFML, the game engine's `createNewPlayer` and mouse hit-testing become parameters or recorded calls.
- **Unshown record layouts.** Several records are used but declared in no shown header:
  - `ConnectRequestPacket`, `ConnectResponsePacket`, `GameStatsPacket`, `BestScorePacket`;
  - the extended `EntityUpdatePacket`;
  - the six-flag `PlayerInputPacket`.

  Their sizes, field offsets and the `ENTITY_DEATH`/`GAME_STATS`/`BEST_SCORE`/`END_GAME_STATE`/`LOOSE_GAME_STATE` tags are held in a `Layout` record (`Packets.Layout`). The model assigns them no bytes of its own.

Two behaviours of the code worth knowing, both modelled as written:

- **`createEntity`** (shared/ecs/EntityManager.cpp:10-13). It returns the most recently freed id (LIFO; 999 first on a fresh manager), not the lowest free one.
- **`destroyEntity`** (shared/ecs/EntityManager.cpp:15-19).
  - It only clears the entity's mask and pushes the id back. It does not erase the stored components.
  - It is not a no-op on an already-free id: the id is pushed a second time. The model's partition invariant therefore holds only while live ids are destroyed.

## Model

| member | source | states |
|---|---|---|
| `Common.LittleEndianRoundTrip` | shared/network/packetType.hpp:24-25 | storing a value that fits in `width` bytes little-endian and loading it back gives the value |
| `Common.LittleEndianOfValue` | shared/network/packetType.hpp:24-25 | every byte string is the little-endian encoding of its own value, so a u16 field has no slack |
| `Common.LittleEndian` | shared/network/packetType.hpp:24-25 | a store writes exactly `width` bytes, the low byte first, and zero stores as all-zero bytes |
| `Common.FromLittleEndian` | shared/network/packetType.hpp:24-25 | a little-endian field of n bytes holds a value below 256^n |
| `Common.TruncMod` | client/systems/AnimationSystem.cpp:16 | C++ `%`: for a non-negative dividend the remainder lies in `[0, abs(divisor))` and equals the Euclidean one |
| `Components.Default` | shared/ecs/EntityManager.hpp:64 | the value-initialised `T{}` a new vector is filled with is a component of type `T` |
| `SparseArrays.Grown` | shared/ecs/SparseArray.hpp:23-24 | `resize(n)` keeps every existing slot, adds empty slots up to `n`, and never shrinks |
| `SparseArrays.Inserted` | shared/ecs/SparseArray.hpp:28-32 | after `insert_at(i, c)` slot i holds `c`, other slots are unchanged, new ones empty, size is `max(size, i+1)` |
| `SparseArrays.EraseSpec` | shared/ecs/SparseArray.hpp:34-38 | `erase(e)` empties slot e only when e < size, keeps every other slot and the size; out of range it changes nothing |
| `SparseArrays.Erased` | shared/ecs/SparseArray.hpp:34-38 | erasing keeps the size; slot e becomes empty and every other slot keeps its value |
| `SparseArrays.EraseIdempotent` | shared/ecs/SparseArray.hpp:34-38 | erasing an empty or missing slot changes nothing, so erasing twice is erasing once |
| `SparseArrays.NeverShrinks` | shared/ecs/SparseArray.hpp:22-38 | no operation makes the slot vector shorter |
| `SparseArrays.SparseArray.constructor` | shared/ecs/SparseArray.hpp:49 | a new array has no slots |
| `SparseArrays.SparseArray.Index` | shared/ecs/SparseArray.hpp:22-26 | the non-const `operator[]` grows the vector to `idx+1` when needed and yields slot `idx` |
| `SparseArrays.SparseArray.InsertAt` | shared/ecs/SparseArray.hpp:28-32 | `insert_at` leaves the vector equal to `Inserted(old, idx, c)` |
| `SparseArrays.SparseArray.Erase` | shared/ecs/SparseArray.hpp:34-38 | `erase` leaves the vector equal to `Erased(old, e)` |
| `SparseArrays.SparseArray.Get` | shared/ecs/SparseArray.hpp:40-44 | the const `operator[]` requires `idx < size` (its check is commented out) and yields slot `idx` |
| `SparseArrays.SparseArray.GetData` | shared/ecs/SparseArray.hpp:46 | `getData` returns the whole slot vector |
| `Ecs.ComponentIds.constructor` | shared/ecs/EntityManager.cpp:22 | the shared counter `nextComponentId` starts at 0 with no type numbered |
| `Ecs.ComponentIds.GetComponentId` | shared/ecs/EntityManager.hpp:54-58 | a type keeps the id of its first use; a new type takes the next counter value |
| `Ecs.ComponentIdsFit` | shared/ecs/EntityManager.hpp:12 | nothing checks ids against `MAX_COMPONENTS`, but with eight component types no id reaches 8, so every id indexes the 32 vectors and mask bits |
| `Ecs.EntityManager.ViewWellKinded` | shared/ecs/EntityManager.hpp:27-28 | whatever an entity holds under type T is a T |
| `Ecs.EntityManager.ComponentsOfMask` | shared/ecs/EntityManager.hpp:41-43 | `ComponentsOf(e)` holds type T exactly when T has an id and that bit of e's mask is set, as `hasComponent<T>` tests |
| `Ecs.EntityManager.IdsHandedOut` | shared/ecs/EntityManager.hpp:55-57 | every vector index and mask bit in use is an id the counter has handed out |
| `Ecs.EntityManager.constructor` | shared/ecs/EntityManager.cpp:3-8 | a fresh manager's free list is 0..999 in ascending order, no entity has a component, and no id is live |
| `Ecs.EntityManager.CreateEntity` | shared/ecs/EntityManager.cpp:10-14 | pops and returns the last free id (`back()` is unguarded, so the list must be non-empty); that id becomes live and the partition is kept |
| `Ecs.EntityManager.DestroyEntity` | shared/ecs/EntityManager.cpp:16-19 | clears every component of e, pushes e on the free list so the next create returns it, touches no other entity, keeps the partition when e was live |
| `Ecs.EntityManager.GetComponentId` | shared/ecs/EntityManager.hpp:54-58 | numbering a type through a manager changes no entity's components |
| `Ecs.EntityManager.EnsureComponentVectorExists` | shared/ecs/EntityManager.hpp:60-66 | T's vector is created once, with `MAX_ENTITIES` default values, and later calls leave it alone; no entity's components change |
| `Ecs.EntityManager.AddDefaultVector` | shared/ecs/EntityManager.hpp:64 | the creation branch installs `MAX_ENTITIES` copies of `T{}` under T's id without changing any entity |
| `Ecs.EntityManager.AddComponent` | shared/ecs/EntityManager.hpp:23-30 | e now has `c` under its type; no other entity and no other type of e changes |
| `Ecs.EntityManager.StoreAndMark` | shared/ecs/EntityManager.hpp:27-29 | the slot write and the bit set give e exactly `c` under its type and touch nothing else |
| `Ecs.EntityManager.GetComponent` | shared/ecs/EntityManager.hpp:33-38 | requires that e has T (the mask is not consulted) and returns e's T component |
| `Ecs.EntityManager.WriteComponent` | shared/ecs/EntityManager.hpp:36-37 | a write through the returned reference changes e's T component only if e has T; the mask and other entities stay |
| `Ecs.EntityManager.HasComponent` | shared/ecs/EntityManager.hpp:40-43 | true exactly when e has a T component; no entity changes |
| `Ecs.EntityManager.VectorExists` | shared/ecs/EntityManager.hpp:36 | the `any_cast` of T's slot succeeds exactly when T's vector exists |
| `Ecs.EntityManager.GetComponentMask` | shared/ecs/EntityManager.hpp:45-47 | T's bit is in the returned mask exactly when e has T |
| `Ecs.EntityManager.ResetEntityComponents` | client/game/Game.cpp:62 | e loses every component and stays allocated; no other entity changes |
| `Ecs.EntityManager.EraseComponent` | client/game/Game.cpp:308 | `getComponents<T>().erase(e)`: e loses its T component and nothing else changes |
| `Ecs.CreateKeepsPartition` | shared/ecs/EntityManager.cpp:10-14 | popping the last id of a duplicate-free free list moves exactly that id into the live set |
| `Ecs.DestroyKeepsPartition` | shared/ecs/EntityManager.cpp:16-19 | pushing back a live id keeps the free list duplicate-free and frees exactly that id |
| `Packets.DeclaredTypesDistinct` | shared/network/packetType.hpp:33-42 | the seven declared packet tags are seven different bytes |
| `Packets.LengthField` | shared/network/packetType.hpp:24 | a size stored in the u16 `length` keeps its low 16 bits, so it is exact below 65536 |
| `Packets.LengthFieldWraps` | shared/network/packetType.hpp:24 | a 65536-byte packet would announce length 0 |
| `Packets.EncodeHeader` | shared/network/packetType.hpp:19-26 | the header is 8 packed bytes: magic[0], magic[1], version, type, little-endian length, little-endian sequence |
| `Packets.DecodeHeader` | shared/network/packetType.hpp:19-26 | a datagram yields a header exactly when it holds at least 8 bytes; the header's type is byte 3 and its fields fit their widths |
| `Packets.HeaderRoundTrip` | shared/network/packetType.hpp:20-26 | decoding an encoded header gives back the same header field for field |
| `Packets.HeaderBytesRoundTrip` | shared/network/packetType.hpp:20-26 | any 8 bytes re-encode to themselves, so the layout has no slack |
| `Packets.EncodeEntityUpdate` | shared/network/packetType.hpp:44-50 | the record is 20 bytes: u32 entityId, then the four 4-byte fields x, y, dx, dy |
| `Packets.DecodeEntityUpdate` | shared/network/packetType.hpp:44-50 | a record is read exactly when at least 20 bytes are present, and its id fits 32 bits |
| `Packets.EntityUpdateRoundTrip` | shared/network/packetType.hpp:44-50 | decoding an encoded entity update gives back the record |
| `Packets.EntityUpdateBytesRoundTrip` | shared/network/packetType.hpp:44-50 | any 20 bytes re-encode to themselves |
| `Packets.BoolByte` | shared/network/packetType.hpp:54 | a `bool` occupies one byte, 1 for true and 0 for false |
| `Packets.EncodePlayerInput` | shared/network/packetType.hpp:53-58 | the record is 4 bytes, one per flag, in the order up, down, left, right |
| `Packets.DecodePlayerInput` | shared/network/packetType.hpp:53-58 | a record is read exactly when at least 4 bytes are present |
| `Packets.PlayerInputRoundTrip` | shared/network/packetType.hpp:53-58 | decoding an encoded input record gives back the four flags |
| `Packets.PlayerInputBytesRoundTrip` | shared/network/packetType.hpp:53-58 | four bytes re-encode to themselves exactly when each holds a canonical bool |
| `Packets.InputBodyRoundTrip` | client/network/NetworkManager.cpp:155-160 | whatever body the input builders write, a receiver reads back the same six flags |
| `Packets.ReadInputFlags` | client/network/NetworkManager.cpp:155-160 | a flag reads as set when its byte is non-zero; all six flags read as clear with every declared byte zero exactly when the whole body is zero |
| `Packets.ReadConnectResponse` | client/game/Game.cpp:293-295 | the player id read from a response fits its field's width |
| `Packets.ConnectResponseRoundTrip` | server/manager/Manager.cpp:23-24 | a response body the server fills reads back on the client as the same `success` and `playerId` |
| `PacketBuffers.WriteHeader` | client/network/NetworkManager.cpp:116-121 | the first 8 bytes become the standard header ("RT", version 1, the type, length = buffer size mod 2^16, sequence 0); the rest is untouched |
| `PacketBuffers.DecodeHeaderOfPrefix` | client/game/Game.cpp:25-26 | reading a datagram's header looks only at its first 8 bytes |
| `PacketBuffers.HeaderOfPacket` | client/game/Game.cpp:25-26 | a datagram that starts with an encoded header decodes to that header |
| `ClientNetwork.ResolveHost` | client/network/NetworkManager.cpp:28 | "localhost" is resolved as 127.0.0.1; any other host is used as given |
| `ClientNetwork.CString` | client/network/NetworkManager.cpp:123 | `c_str()` offers the bytes before the first NUL |
| `ClientNetwork.UsernameField` | client/network/NetworkManager.cpp:123-124 | the username field has exactly the field's size |
| `ClientNetwork.UsernameFieldTruncates` | client/network/NetworkManager.cpp:123-124 | a NUL-free name lands in the field cut to size-1 bytes, NUL-padded, and the last byte is always NUL |
| `ClientNetwork.NoNulIsWholeCString` | client/network/NetworkManager.cpp:123 | a name with no NUL byte is offered to `strncpy` whole |
| `ClientNetwork.CopyUsername` | client/network/NetworkManager.cpp:123-124 | `strncpy` then the terminator writes `UsernameField` into the field and no byte outside it |
| `ClientNetwork.CreateConnectRequest` | client/network/NetworkManager.cpp:111-127 | the packet is header + request body with a CONNECT_REQUEST standard header whose length is the packet size; the username field holds the truncated C string; every other body byte is 0 |
| `ClientNetwork.CreateDisconnectRequest` | client/network/NetworkManager.cpp:129-141 | the packet is the 8-byte header alone: type DISCONNECT, length 8, sequence 0 |
| `ClientNetwork.InputBytesFormBody` | client/network/NetworkManager.cpp:155-160 | the bytes the builder writes form an input body carrying the given flags |
| `ClientNetwork.WriteDirectionFlags` | client/network/NetworkManager.cpp:155-158 | up, down, left, right go to the first four body bytes and nothing else changes |
| `ClientNetwork.WriteInputBody` | client/network/NetworkManager.cpp:155-160 | the six flags are written into a zeroed body (`ultimate` from `input.Ultimate`); the header is untouched |
| `ClientNetwork.CreatePlayerInputPacket` | client/network/NetworkManager.cpp:143-163 | a PLAYER_INPUT standard header, then a body from which the receiver reads back exactly the six input flags |
| `ClientNetwork.NetworkClient.constructor` | client/network/NetworkManager.cpp:12-19 | a new client is not running, has no socket, no receive armed and no callback |
| `ClientNetwork.NetworkClient.Start` | client/network/NetworkManager.cpp:21-45 | a no-op while running; otherwise it throws exactly when the socket is already open or `open`, `bind` or `from_string` fails, with `running` still false and the socket left open whenever `open` got that far (so every later start throws); success opens the socket, resolves the endpoint, sets `running` and arms the first receive |
| `ClientNetwork.NetworkClient.Stop` | client/network/NetworkManager.cpp:47-59 | a no-op unless running; otherwise `running` is cleared, the pending receive cancelled and the socket closed |
| `ClientNetwork.NetworkClient.SetMessageCallback` | client/network/NetworkManager.cpp:73-76 | a callback is installed |
| `ClientNetwork.NetworkClient.SendTo` | client/network/NetworkManager.cpp:61-71 | one datagram is appended to what was sent |
| `ClientNetwork.NetworkClient.HandleReceive` | client/network/NetworkManager.cpp:89-109 | a successful non-empty receive hands exactly its first n buffer bytes to the callback, if set; a receive is re-armed exactly when running and the operation was not aborted |
| `ClientGame.Register` | client/game/Game.hpp:253-254 | the handler table maps each type to the handler of its last registration, and unregistered types keep theirs |
| `ClientGame.HandlerTable` | client/game/Game.cpp:325-346 | after `initPacketHandlers` the table's keys are exactly the seven registered tags; LOOSE_GAME_STATE, registered last, always maps to `handleLose`; END_GAME_STATE, ENTITY_UPDATE and CONNECT_RESPONSE keep their own handlers unless a later tag equals theirs |
| `ClientGame.RegisterAppliesInOrder` | client/game/Game.cpp:325-346 | the seven assignments, applied one after another to any table, give `Register` |
| `ClientGame.Route` | client/game/Game.cpp:20-33 | a datagram is routed exactly when it holds a header and its type byte has a handler |
| `ClientGame.RouteFollowsHeader` | client/game/Game.cpp:25-31 | a datagram starting with an encoded header is routed by that header's type alone |
| `ClientGame.ConnectWaitEnds` | client/game/Game.cpp:476 | starting from `myPlayerId` 0, a connect response ends the wait exactly when it reports success with a non-zero id |
| `ClientGame.PlayerIdAfter` | client/game/Game.cpp:291-296 | after a connect response `myPlayerId` is the response's id when `success` is set, and unchanged otherwise |
| `ClientGame.PlayerZeroKeepsWaiting` | client/game/Game.hpp:361 | a successful response that assigns player id 0 leaves the client waiting |
| `ClientGame.SpawnRender` | client/game/Game.cpp:65-156 | a spawned entity's RenderComponent starts at frame 0 with timer 0, a positive frame size and at least one frame |
| `ClientGame.Spawned` | client/game/Game.cpp:62-158 | a new entity gets Position, Velocity and Render from the record, plus Projectile for kinds 1 and 5, HealthBonus for 6, Enemy for 2-4 and 8, Wall for 7, and never Player |
| `ClientGame.SpawnedEnemyTag` | client/game/Game.cpp:147 | kinds 2-4 spawn an Enemy with tag 1 and kind 8 spawns the boss, tag 3 |
| `ClientGame.KindComponent` | client/game/Game.cpp:92-156 | a new entity gets a kind component exactly for types 1-8: Projectile{10, 1, false, false} for 1 and 5, HealthBonus{3} for 6, Wall{3} for 7, an Enemy with tag 1 for 2-4 and tag 3 for 8 |
| `ClientGame.Refreshed` | client/game/Game.cpp:271-289 | an update of an existing entity keeps it well-kinded, adds at most a Projectile, loses at most Enemy and Position, and leaves every component other than Position, Velocity, Projectile and Enemy as it was |
| `ClientGame.Mirrored` | client/game/Game.cpp:51-169 | the mirrored entity stays well-kinded and keeps its Render; it has a Position afterwards unless an enemy was converted by a kind-1 record |
| `ClientGame.Overwrite` | client/game/Game.cpp:283-288 | a write through `getComponent<T>` changes only T, and only when the entity has it |
| `ClientGame.RefreshMoves` | client/game/Game.cpp:283-288 | an ordinary update sets the position and velocity from the record and changes nothing else |
| `ClientGame.RefreshConvertsEnemy` | client/game/Game.cpp:273-281 | a kind-1 record for an enemy removes Enemy and Position and adds the projectile component |
| `ClientGame.RefreshWithoutVelocityVector` | client/game/Game.cpp:284 | when no Velocity vector exists, `getComponent` throws before any write, so the update changes nothing |
| `ClientGame.UpdateAsWrittenReadsPastMasks` | client/game/Game.cpp:53-55 | the code reads the mask of id 1000 before the guard that rejects that id |
| `ClientGame.UpdateStepsInBounds` | client/game/Game.cpp:53-60 | with the guard first, every mask read is in bounds, exactly the ids ≥ 1000 are ignored, and in-range ids take the written steps |
| `ClientGame.Game.constructor` | client/game/Game.cpp:9-18 | `myPlayerId` 0, state MENU, 3 lives, score 0, level 1, not dead, default `PlayerStats`, and the handler table of `initPacketHandlers` |
| `ClientGame.Game.InitPacketHandlers` | client/game/Game.cpp:325-346 | the table becomes the old one with the seven registrations applied in order |
| `ClientGame.Game.HandleConnectResponse` | client/game/Game.cpp:291-296 | `myPlayerId` takes the response's id exactly when `success` is set |
| `ClientGame.Game.HandleGameStats` | client/game/Game.cpp:182-191 | level, score and lives take the record's values; the stats record updates `current_level` and `enemies_killed` only |
| `ClientGame.Game.HandleBestScore` | client/game/Game.cpp:172-180 | the four long-term statistics take the record's values (`games_won` into `total_games`) |
| `ClientGame.Game.HandleEndGame` | client/game/Game.cpp:193-200 | the state becomes VICTORY |
| `ClientGame.Game.HandleLose` | client/game/Game.cpp:360-367 | the state becomes GAME_OVER |
| `ClientGame.Game.HandleEntityUpdate` | client/game/Game.cpp:35-170 | the local player's kind-0 record sets score, level and lives; an id below 1000 is mirrored (spawned without Position, refreshed with it); larger ids are ignored; no other entity changes |
| `ClientGame.Game.UpdateOwnStats` | client/game/Game.cpp:41-49 | score, level and lives change exactly for a kind-0 record naming `myPlayerId` |
| `ClientGame.Game.MirrorEntity` | client/game/Game.cpp:51-169 | the entity ends up as `Mirrored` says: spawned without Position, refreshed with it |
| `ClientGame.Game.SpawnEntity` | client/game/Game.cpp:62-158 | after the reset and the additions, the entity's components are exactly `Spawned(record)` |
| `ClientGame.Game.UpdateExistingEntity` | client/game/Game.cpp:271-289 | the entity's components become `Refreshed(old, record, ...)` |
| `ClientGame.Game.ConvertToProjectile` | client/game/Game.cpp:273-281 | Enemy and Position are erased; the projectile is added only if the Render vector exists, otherwise the throw ends the conversion |
| `ClientGame.Game.AddProjectileIfRenderable` | client/game/Game.cpp:277-278 | `getComponent<RenderComponent>` throws without a Render vector; otherwise Projectile is added |
| `ClientGame.Game.StripEnemy` | client/game/Game.cpp:275-276 | the entity loses exactly Enemy and Position |
| `ClientGame.Game.MoveEntity` | client/game/Game.cpp:283-288 | the record's position and velocity are written through the two references |
| `ClientGame.Game.HandleEntityDeath` | client/game/Game.cpp:298-323 | `playerIsDead` is set when lives ≤ 0; each id other than 0xFFFFFFFF loses all its components and is pushed on the free list, in order; no other entity changes |
| `ClientGame.Game.CheckPlayerDead` | client/game/Game.cpp:302-303 | `playerIsDead` becomes true once lives are ≤ 0 and never reverts |
| `ClientGame.Game.RemoveDeadEntity` | client/game/Game.cpp:305-316 | a first id other than the sentinel has its components erased and is destroyed |
| `ClientGame.Game.EraseDeadComponents` | client/game/Game.cpp:307-314 | the four guarded erasures remove exactly Enemy, Player, Position and Velocity |
| `ClientGame.Game.RemoveDeadProjectile` | client/game/Game.cpp:318-322 | a second id other than the sentinel loses its Projectile and is destroyed |
| `ClientGame.Game.ErasePairIfPresent` | client/game/Game.cpp:307-310 | two guarded erasures remove exactly the two types |
| `ClientGame.Game.EraseIfPresent` | client/game/Game.cpp:307-308 | `if (hasComponent<T>) erase` removes exactly T |
| `ClientGame.Game.HandleNetworkMessage` | client/game/Game.cpp:20-33 | a datagram with no header or no registered handler changes nothing; a routed one leaves the game's own fields as `StatusAfter` says for its handler and the entity mirror as `MirrorAfter` says (the record's entity mirrored, or the death record's ids cleared and pushed, every other entity and the free list unchanged otherwise); the table never changes |
| `ClientGame.Game.Dispatch` | client/game/Game.cpp:28-32 | the found handler runs on the body after the header: the game's own fields become `StatusAfter(handler, body, old)` for all seven handlers (GAME_STATS and BEST_SCORE included) and the entities change exactly as `MirrorAfter` says; the table never changes |
| `ClientGame.Game.DispatchEntityPacket` | client/game/Game.cpp:330-334 | an ENTITY_UPDATE mirrors the record's entity, updates the player's own level, score and lives when the record is the player's, and leaves every other entity and the free list alone; an ENTITY_DEATH sets `playerIsDead` when lives are gone, clears the record's ids, pushes them, and leaves every other entity alone |
| `ClientGame.Game.DispatchUpdate` | client/game/Game.cpp:333-334 | an ENTITY_UPDATE body: own level, score and lives as `StatusAfter` says, the record's entity mirrored, the free list and every other entity unchanged |
| `ClientGame.Game.DispatchDeath` | client/game/Game.cpp:330-331 | an ENTITY_DEATH body: `playerIsDead` set when lives are gone, the record's ids cleared and pushed on the free list, every other entity unchanged |
| `ClientGame.Game.DispatchStatePacket` | client/game/Game.cpp:327-345 | a connect response sets `myPlayerId` as `PlayerIdAfter` says, BEST_SCORE and GAME_STATS update the statistics as their handlers do, END_GAME gives VICTORY and a loss GAME_OVER; the other own fields, every entity and the free list are unchanged |
| `ClientGame.StatusAfter` | client/game/Game.cpp:35-366 | each handler changes only its own fields: only a connect response changes `myPlayerId`; only END_GAME and a loss change the state; only GAME_STATS and BEST_SCORE change the statistics; only GAME_STATS and a player's own entity update change level, score and lives; only a death record changes `playerIsDead`, and only to true |
| `ClientGame.Game.SendInput` | client/game/Game.cpp:638-658 | an input datagram is sent exactly when one of the six flags is pressed; it is a PLAYER_INPUT packet from which the six flags read back |
| `ServerNetwork.DigitChar` | server/network/NetworkManager.cpp:72 | a decimal digit is spelled as a character '0'..'9' |
| `ServerNetwork.Decimal` | server/network/NetworkManager.cpp:72 | `std::to_string` of a natural number is a non-empty string of digits |
| `ServerNetwork.DecimalRoundTrip` | server/network/NetworkManager.cpp:72 | parsing `to_string(n)` gives back n |
| `ServerNetwork.DecimalInjective` | server/network/NetworkManager.cpp:71-72 | two numbers with the same spelling are equal |
| `ServerNetwork.LeadingDigits` | server/network/NetworkManager.cpp:71-72 | the leading run of digits is a prefix of the key |
| `ServerNetwork.LeadingDigitsOfField` | server/network/NetworkManager.cpp:71-72 | a number followed by a separator is read back up to the separator |
| `ServerNetwork.FieldInjective` | server/network/NetworkManager.cpp:71-72 | "n" + sep + rest determines both n and rest |
| `ServerNetwork.ClientKeyInjective` | server/network/NetworkManager.cpp:71-72 | two endpoints with the same "ip:port" key are the same endpoint |
| `ServerNetwork.ClientKeyShape` | server/network/NetworkManager.cpp:71-72 | the key `ClientKey` files a sender under starts with the first octet's decimal spelling and a dot, and ends with a colon and the port's decimal spelling |
| `ServerNetwork.Registered` | server/network/NetworkManager.cpp:70-73 | receiving never removes a registered key, and a non-empty datagram files its sender under its own key |
| `ServerNetwork.Payloads` | server/network/NetworkManager.cpp:74-75 | at most one payload per datagram, and a non-empty last datagram yields a last payload from its sender |
| `ServerNetwork.ReceivedOneMore` | server/network/NetworkManager.cpp:64-77 | one more iteration extends the registry and the payloads by that datagram alone |
| `ServerNetwork.RegisteredKeys` | server/network/NetworkManager.cpp:70-73 | a key is registered exactly when it was before or a non-empty datagram came from that sender |
| `ServerNetwork.RegisteredKeyedBySender` | server/network/NetworkManager.cpp:71-73 | every entry stays filed under its own sender's key |
| `ServerNetwork.OneEntryPerSender` | server/network/NetworkManager.cpp:73 | a sender appears under exactly one key, however many datagrams it sent |
| `ServerNetwork.PayloadSizes` | server/network/NetworkManager.cpp:60-75 | each payload is a non-empty prefix of the 1024-byte buffer |
| `ServerNetwork.NetworkServer.constructor` | server/network/NetworkManager.cpp:6-13 | a new server is not running, has no socket and an empty registry |
| `ServerNetwork.NetworkServer.Start` | server/network/NetworkManager.cpp:22-40 | a no-op while running; otherwise it throws exactly when the socket or the bind fails, leaving `running` false, and on success `running` is set with the socket open |
| `ServerNetwork.NetworkServer.Stop` | server/network/NetworkManager.cpp:42-52 | `running` ends false; a running server also has its socket closed, while a stopped one keeps its socket state |
| `ServerNetwork.NetworkServer.SetMessageCallback` | server/network/NetworkManager.cpp:74 | a callback is installed |
| `ServerNetwork.NetworkServer.SendTo` | server/network/NetworkManager.cpp:54-57 | one datagram to the given client is recorded |
| `ServerNetwork.NetworkServer.ReceiveOne` | server/network/NetworkManager.cpp:65-76 | a datagram with received > 0 files its sender under "ip:port" and hands its first `received` bytes to the callback; otherwise nothing changes |
| `ServerNetwork.NetworkServer.ReceiveLoop` | server/network/NetworkManager.cpp:59-78 | while running, the registry becomes `Registered(old, incoming)` and the callback receives `Payloads(incoming)` |
| `ServerManager.WriteConnectResponseBody` | server/manager/Manager.cpp:23-24 | `success` = true and `playerId` are written into the zeroed body; the header bytes are untouched |
| `ServerManager.CreateConnectResponse` | server/manager/Manager.cpp:9-24 | a CONNECT_RESPONSE standard header with length header+body, then a body the client reads back as (true, playerId) |
| `ServerManager.ShortPayloadReachesCallback` | server/network/NetworkManager.cpp:70-75 | a 1-byte datagram reaches the callback with a payload of fewer than 4 bytes |
| `ServerManager.Manager.constructor` | server/manager/Manager.cpp:4-32 | a stopped network on the port with an empty registry, the routing installed as callback, and no game calls |
| `ServerManager.Manager.OnMessageAsWritten` | server/manager/Manager.cpp:5-31 | the callback as written: byte 3 is read with no length check, a CONNECT_REQUEST goes to the game and is answered to its sender, anything else is only forwarded |
| `ServerManager.Manager.Routed` | server/manager/Manager.cpp:5-31 | the routing effect: nothing for a payload of at most 3 bytes; otherwise the message goes to the game, and a CONNECT_REQUEST also creates a player and sends exactly one CONNECT_RESPONSE with that player's id to its sender, while any other type sends nothing |
| `ServerManager.Manager.OnMessage` | server/manager/Manager.cpp:5-31 | the callback with a size check: a payload too short to hold the type byte is dropped, every other payload (4 bytes and up, headers shorter than 8 bytes included) is routed exactly as written (`Routed`) |
| `ServerManager.Manager.Respond` | server/manager/Manager.cpp:14-26 | `createNewPlayer(sender)`, then one response carrying that id sent to the sender |
| `ServerManager.Manager.HandleNewConnection` | server/manager/Manager.cpp:42-59 | the same response as the inline connect path, without passing the message to the game |
| `ServerManager.Manager.Receive` | server/manager/Manager.cpp:5-31 | one received datagram registers its sender and is delivered; a failed or empty receive changes no game call and sends nothing; a non-empty payload has the full `Routed` effect: game calls, the one connect response or nothing sent |
| `ServerManager.Manager.Start` | server/manager/Manager.cpp:61-65 | `running` is set; the network's start throws exactly when it was stopped and the socket or the bind fails; the update thread runs exactly when nothing threw |
| `ServerManager.Manager.Stop` | server/manager/Manager.cpp:67-73 | the manager, its update thread, the network and its receive thread all end stopped |
| `Shooting.ShotMotion` | shared/systems/ShootSystem.hpp:41-56 | a player's shot: Velocity{350 or 300, shootY} and damage 5 or 1, origin 0; otherwise an enemy's: Velocity{-speedShoot, shootY}, origin 2, damage 5 or 1; a shooter with neither gets no motion |
| `Shooting.ShotAllowed` | shared/systems/ShootSystem.hpp:24-27 | a shot is allowed exactly when 200 ms have passed since the last shot and, for an ultimate, 5000 ms since the last ultimate |
| `Shooting.ShotComponents` | shared/systems/ShootSystem.hpp:36-56 | the new projectile is well-kinded, starts at the shooter's position, and has exactly Position plus the shot's motion components |
| `Shooting.ShotStartsAtShooter` | shared/systems/ShootSystem.hpp:36-56 | the projectile starts at the shooter's position; a shooter that is neither player nor enemy gets a projectile with a Position only |
| `Shooting.AddMotion` | shared/systems/ShootSystem.hpp:43-47 | the two `addComponent` calls add exactly Velocity and Projectile to the projectile |
| `Shooting.AddShotMotion` | shared/systems/ShootSystem.hpp:41-56 | the projectile receives exactly `ShotMotion` of the shooter; nothing else changes |
| `Shooting.AddEnemyMotion` | shared/systems/ShootSystem.hpp:49-56 | a non-player shooter gives its projectile the enemy motion if it is an enemy, and nothing otherwise |
| `Shooting.AddEnemyShotMotion` | shared/systems/ShootSystem.hpp:50-55 | an enemy's projectile flies left at `speedShoot` with origin 2 |
| `Shooting.Spawn` | shared/systems/ShootSystem.hpp:38-40 | the popped id gets the shooter's position; it is never the live shooter |
| `Shooting.Fire` | shared/systems/ShootSystem.hpp:36-56 | exactly one entity, the last free id, is created and gets `ShotComponents`; no other entity changes |
| `Shooting.Shoot` | shared/systems/ShootSystem.hpp:28-56 | reports whether the shooter is a player; without Position nothing is created; with Position exactly one projectile is created |
| `Shooting.ShootSystem.constructor` | shared/systems/ShootSystem.hpp:11-13 | both timers start at construction time |
| `Shooting.ShootSystem.RestartTimers` | shared/systems/ShootSystem.hpp:28-33 | the shot timer restarts only for a player, and the ultimate timer only on a player's ultimate |
| `Shooting.ShootSystem.HandleShoot` | shared/systems/ShootSystem.hpp:19-59 | a shot needs 200 ms since the last shot, and an ultimate also 5000 ms since the last ultimate; timers restart only for players; without Position or permission no entity changes; otherwise one projectile with `ShotComponents` |
| `Movement.Clamp` | shared/systems/MouvementSystem.hpp:15-18 | the result lies in [0, hi]; it is the input when that is inside, 0 below and hi above |
| `Movement.Step` | shared/systems/MouvementSystem.hpp:12-18 | the new position lies in [0,795]×[0,590], and equals `pos + vel*dt` in each coordinate already inside its bounds |
| `Movement.Moved` | shared/systems/MouvementSystem.hpp:7-19 | only an entity with Position and Velocity changes, and only its Position |
| `Movement.StillEntityStays` | shared/systems/MouvementSystem.hpp:12-18 | an entity inside the area with zero velocity or dt = 0 is left as it is |
| `Movement.MovedBy` | shared/systems/MouvementSystem.hpp:6-21 | successive updates keep every component under its own type |
| `Movement.MovedStaysInArea` | shared/systems/MouvementSystem.hpp:10-18 | after any number of updates with any time steps the entity is inside the area and its Velocity was never written |
| `Movement.MoveEntity` | shared/systems/MouvementSystem.hpp:8-19 | one loop iteration leaves the entity as `Moved` says and no other entity changed |
| `Movement.MoveIfMoving` | shared/systems/MouvementSystem.hpp:8-19 | the Velocity check, then the move of an entity that has a Position |
| `Movement.ClampCoordinate` | shared/systems/MouvementSystem.hpp:15-18 | the two in-place clamps compute `Clamp` |
| `Movement.Integrate` | shared/systems/MouvementSystem.hpp:9-18 | the write through the Position reference leaves the entity as `Moved` says |
| `Movement.Integrated` | shared/systems/MouvementSystem.hpp:12-18 | integration then clamping computes `Step` |
| `Movement.Update` | shared/systems/MouvementSystem.hpp:6-21 | after `update(dt)` every entity is as `Moved` says |
| `Animation.NextFrame` | client/systems/AnimationSystem.cpp:16 | a frame in range advances to a frame in range |
| `Animation.FramesCycle` | client/systems/AnimationSystem.cpp:16 | n advances from frame f land on (f + n) mod frameCount |
| `Animation.AnimationLoops` | client/systems/AnimationSystem.cpp:16 | after frameCount advances the animation is back at its starting frame |
| `Animation.Animated` | clientECS/systems/AnimationSystem.hpp:23-29 | below `frameTime` only the timer grows by dt; on reaching it the timer resets to 0, the frame advances mod frameCount and the rectangle moves to (frame·width, 0, width, height); the frame stays in range |
| `Animation.AnimatedView` | clientECS/systems/AnimationSystem.hpp:18-33 | only the RenderComponent of an entity changes, as `Animated` says |
| `Animation.Advance` | client/systems/AnimationSystem.cpp:13-19 | the in-place updates of the RenderComponent compute `Animated` |
| `Animation.AnimateRender` | client/systems/AnimationSystem.cpp:11-20 | the slot read, advanced and written back leaves the entity as `AnimatedView` says |
| `Animation.AnimateEntity` | client/systems/AnimationSystem.cpp:10-21 | one loop iteration touches only an entity with a RenderComponent |
| `Animation.Update` | client/systems/AnimationSystem.cpp:8-23 | after `update(dt)` every entity is as `AnimatedView` says |
| `TextEditing.Edited` | client/input/textInput/TextInput.cpp:37-41 | backspace pops the last character, a code in 32..127 is appended, anything else is ignored; a buffer of codes in 32..127 keeps only such codes |
| `TextEditing.BackspaceUndoesTyping` | client/input/textInput/TextInput.cpp:37-41 | backspace right after typing a character in 32..127 restores the buffer |
| `TextEditing.Codes` | client/input/textInput/TextInput.cpp:36 | one TextEntered code per character of a word |
| `TextEditing.TypingAppends` | client/input/textInput/TextInput.cpp:39-40 | typing a word of codes in 32..127 appends exactly that word |
| `TextEditing.TypingKeepsAppendable` | client/input/textInput/TextInput.cpp:39-40 | no sequence of keystrokes puts a code outside 32..127 (printable ASCII and DEL) in the buffer |
| `UiTextInput.TextInput.constructor` | client/input/textInput/TextInput.cpp:5-29 | a new box is inactive, empty and has no callback |
| `UiTextInput.TextInput.SetOnTextChanged` | client/input/textInput/TextInput.cpp:83-85 | a callback is installed |
| `UiTextInput.TextInput.HandleEvent` | client/input/textInput/TextInput.cpp:31-49 | a left click sets `isActive` to whether the pointer is over the box; while active a TextEntered edits the string as `Edited` says and then notifies the callback, even when nothing changed; otherwise the string is unchanged |
| `UiTextInput.TextInput.GetValue` | client/input/textInput/TextInput.cpp:61-63 | returns the string |
| `UiTextInput.TextInput.Render` | client/input/textInput/TextInput.cpp:51-59 | the placeholder is drawn exactly when the string is empty and the box inactive |
| `MenuTextInput.Accepts` | client/menu/TextInput.cpp:51-52 | the throttle accepts a character exactly when the key is not held or 500 ms have passed; the 1000 ms delay arm is never chosen |
| `MenuTextInput.TextInput.constructor` | client/menu/TextInput.cpp:12-34 | a new box is inactive, empty, with the cursor hidden and the repeat clock started |
| `MenuTextInput.TextInput.HandleEvent` | client/menu/TextInput.cpp:36-71 | returns true exactly on a press inside the box; any press sets `isActive` to whether it was inside; while active an accepted TextEntered edits as `Edited` says, sets `isKeyPressed` and restarts the clock; a KeyReleased clears `isKeyPressed` |
| `MenuTextInput.TextInput.SetValue` | client/menu/TextInput.cpp:109-112 | the whole text is replaced |
| `MenuTextInput.TextInput.GetValue` | client/menu/TextInput.hpp:17 | returns the text |
| `MenuTextInput.TextInput.Render` | client/menu/TextInput.cpp:73-97 | the placeholder is drawn exactly when the text is empty; while active the blink timer grows by 0.1 and at 0.5 the cursor toggles and the timer restarts; the cursor is drawn when shown |

## Left out

- Rendering, windows, audio, fonts and assets are not modelled. This covers every sprite, texture, origin, scale and text call inside the handlers, `render`, `displayMenu`, `displayFinalStats` and the menu, buttons and select bar. They are SFML calls with no logic of their own. The RenderComponent keeps only its texture rectangle and animation fields. Its `Y` field is not kept.
- The database layer is not modelled. Its behaviour lives in SQL strings.
- Sockets, asio, threads and sleeps become parameters:
  - whether `socket`/`bind` succeed;
  - the `recvfrom` results, as a sequence of datagrams;
  - the receive status handed to `handleReceive`.

  The asynchronous send completion and the `io_context` are not modelled.
- Concurrency is not modelled. `NetworkServer.ReceiveLoop` runs sequentially, so `running` cannot be cleared by another thread in the middle of the loop. `Manager::updateLoop` and the connect-wait loop of `Game::run`, with its 5 s timeout, are not modelled.
- Sequence numbers, timeouts and `clientLastSeen` are not modelled. Every builder writes sequence 0, and the timeout functions are only declared.
- Floats are reals. IEEE rounding, NaN and the float-to-int truncations are not modelled.
- Time is integer milliseconds. `ShootSystem` and the menu box's key-repeat clock compare float seconds; the model uses the same thresholds (200, 5000, 500, 1000 ms).
- The sizes, offsets and tags of the records no shown header declares are a parameter, the `Layout` record. `Enemy` keeps only the fields the code reads (`tag`, `speedShoot`). `Projectile` keeps damage, origin and two flags.
- `Ecs.EntityManager.ResetEntityComponents` and `Ecs.EntityManager.EraseComponent` are called but declared in no shown header. They are modelled as mask-only operations: the stored values stay in their slots, as `destroyEntity` leaves them.
- The leaderboard handler depends on a `LeaderboardPacket` that no shown file declares, so it is not modelled. `GameEngine`, the server `MovementSystem`, the `clientECS` network stubs and the `main` programs are not part of this model.
- `Shooting.ShootSystem.HandleShoot`: requires the shooter to be a live id (not on the free list), which the source does not check. A free shooter could be handed its own id by `createEntity`, and the model does not describe that case.
- `Shooting.ShootSystem.HandleShoot`: restarts the player's timers after the shot instead of before it. Nothing between the two steps reads the timers, so the order cannot be observed.
- `Animation.Update`: requires `frameCount != 0` wherever a frame advances, since the source divides by it. Overflow of `currentFrame + 1` and of `currentFrame * frameWidth` in 32-bit `int` is not modelled.
- `ClientGame.Game.HandleNetworkMessage`: requires the routed handler's whole record to be present. The handlers read their bodies without a length check, and a death record must name valid slots or the sentinel.
- `ClientGame.KindComponent`: a client-spawned enemy is built as `Enemy{tag}`, and its `speedShoot` is whatever `Enemy`'s member initialiser says; that header is not part of this model, so the model stores 0.0 and no contract promises that value.
- `ClientGame.Game.HandleEntityDeath`: requires each id to be below 1000 or the sentinel, since the source indexes the mask array with it.
- `UiTextInput.TextInput.HandleEvent`: records each string passed to `onTextChanged` instead of calling an arbitrary function. Whether the pointer is over the box is a parameter.
- `MenuTextInput.TextInput.HandleEvent`: whether the pointer is inside the box, and the current time, are parameters.
- `ServerNetwork.NetworkServer.ReceiveLoop`: the loop takes a finite sequence of datagrams; an endless `while (running)` is not modelled.

## Findings

| source | as written | input that shows it | evidently intended | confidence | as-written member | corrected member |
|---|---|---|---|---|---|---|
| client/game/Game.cpp:53-55 | `hasComponent<Position>(entity)` reads `componentMasks[entity]` before the `entity >= MAX_ENTITIES` guard | an entity update record with entityId 1000: the mask array of 1000 entries is read at index 1000 before the guard rejects the id | check the bound first, then read the mask | not executed | `ClientGame.UpdateAsWrittenReadsPastMasks` | `ClientGame.UpdateStepsInBounds` |
| server/manager/Manager.cpp:6-7 | the message callback reinterprets the payload as a `PacketHeader` and reads `header->type` (byte 3) without checking the payload's size | a 1-byte UDP datagram: `receiveLoop` hands a 1-byte payload to the callback, which reads byte 3 past its end | drop payloads too short to hold the type byte (fewer than 4 bytes) and route every other payload as written | not executed | `ServerManager.ShortPayloadReachesCallback` | `ServerManager.Manager.OnMessage` |
