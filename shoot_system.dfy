// shared/systems/ShootSystem.hpp: the shot cooldowns and the projectile a shot
// creates. Time is integer milliseconds (the source compares float seconds
// against 0.2 and 5.0); the clock is a parameter.
module Shooting {
  import opened Components
  import opened Ecs

  const SHOOT_COOLDOWN_MS: int := 200
  const ULTIMATE_COOLDOWN_MS: int := 5000

  const PLAYER_SHOT_SPEED: real := 300.0
  const PLAYER_ULTIMATE_SPEED: real := 350.0
  const SHOT_DAMAGE: real := 1.0
  const ULTIMATE_DAMAGE: real := 5.0
  /** The second Projectile field: 0 for a player's shot, 2 for an enemy's. */
  const PLAYER_ORIGIN: int := 0
  const ENEMY_ORIGIN: int := 2

  /** `canShoot && (!ultimate || (ultimate && canUltimate))`. */
  predicate ShotAllowed(now: int, lastShoot: int, lastUltimate: int, ultimate: bool): (r: bool)
    ensures r <==> now - lastShoot >= SHOOT_COOLDOWN_MS && (ultimate ==> now - lastUltimate >= ULTIMATE_COOLDOWN_MS)
  {
    var canShoot := now - lastShoot >= SHOOT_COOLDOWN_MS;
    var canUltimate := now - lastUltimate >= ULTIMATE_COOLDOWN_MS;
    canShoot && (!ultimate || (ultimate && canUltimate))
  }

  /**
   * The motion a shot gives its projectile: a player's shot flies right at 300
   * (350 for an ultimate), an enemy's flies left at the enemy's `speedShoot`;
   * a shooter that is neither gets none.
   */
  function ShotMotion(shooter: map<Kind, Component>, ultimate: bool, shootY: real): (r: map<Kind, Component>)
    requires WellKinded(shooter)
    ensures r.Keys == if PlayerKind in shooter || EnemyKind in shooter then {VelocityKind, ProjectileKind} else {}
    ensures r != map[] ==>
      r[VelocityKind].Velocity? && r[VelocityKind].dy == shootY &&
      r[ProjectileKind] == Projectile(if ultimate then ULTIMATE_DAMAGE else SHOT_DAMAGE,
                                      if PlayerKind in shooter then PLAYER_ORIGIN else ENEMY_ORIGIN, true, ultimate)
    ensures PlayerKind in shooter ==>
      r[VelocityKind].dx == if ultimate then PLAYER_ULTIMATE_SPEED else PLAYER_SHOT_SPEED
    ensures PlayerKind !in shooter && EnemyKind in shooter ==>
      r[VelocityKind].dx == -shooter[EnemyKind].speedShoot
  {
    var damage := if ultimate then ULTIMATE_DAMAGE else SHOT_DAMAGE;
    if PlayerKind in shooter then
      var speed := if ultimate then PLAYER_ULTIMATE_SPEED else PLAYER_SHOT_SPEED;
      map[VelocityKind := Velocity(speed, shootY), ProjectileKind := Projectile(damage, PLAYER_ORIGIN, true, ultimate)]
    else if EnemyKind in shooter then
      map[VelocityKind := Velocity(shooter[EnemyKind].speedShoot * -1.0, shootY),
          ProjectileKind := Projectile(damage, ENEMY_ORIGIN, true, ultimate)]
    else
      map[]
  }

  /** Everything a shot puts on its new entity: the shooter's position, then the motion. */
  function ShotComponents(shooter: map<Kind, Component>, ultimate: bool, shootY: real): (r: map<Kind, Component>)
    requires WellKinded(shooter) && PositionKind in shooter
    ensures WellKinded(r)
    ensures PositionKind in r && r[PositionKind] == shooter[PositionKind]
    ensures r.Keys == {PositionKind} + ShotMotion(shooter, ultimate, shootY).Keys
  {
    map[PositionKind := shooter[PositionKind]] + ShotMotion(shooter, ultimate, shootY)
  }

  /**
   * The projectile starts where the shooter stands, and a shooter that is
   * neither a player nor an enemy produces a projectile with a Position only.
   */
  lemma ShotStartsAtShooter(shooter: map<Kind, Component>, ultimate: bool, shootY: real)
    requires WellKinded(shooter) && PositionKind in shooter
    ensures var r := ShotComponents(shooter, ultimate, shootY);
      PositionKind in r && r[PositionKind] == shooter[PositionKind] &&
      (PlayerKind !in shooter && EnemyKind !in shooter <==> r.Keys == {PositionKind})
  {
    var r := ShotComponents(shooter, ultimate, shootY);
    if PlayerKind in shooter || EnemyKind in shooter {
      assert VelocityKind in r;
    }
  }

  lemma UpdateTwiceIsUnion<K, V>(m: map<K, V>, k1: K, v1: V, k2: K, v2: V)
    requires k1 != k2
    ensures m[k1 := v1][k2 := v2] == m + map[k1 := v1, k2 := v2]
  {
  }

  lemma UpdateThenUnion<K, V>(m: map<K, V>, k: K, v: V, n: map<K, V>)
    ensures m[k := v] + n == m + (map[k := v] + n)
  {
  }

  /** Two `addComponent` calls on the projectile: its Velocity, then its Projectile. */
  method AddMotion(entities: EntityManager, p: EntityId, velocity: Component, projectile: Component)
    requires entities.Valid() && p < MAX_ENTITIES
    requires velocity.Velocity? && projectile.Projectile?
    modifies entities`componentArrays, entities.componentMasks, entities.registry
    ensures entities.Valid()
    ensures entities.ComponentsOf(p) == old(entities.ComponentsOf(p)) + map[VelocityKind := velocity, ProjectileKind := projectile]
    ensures forall e | 0 <= e < MAX_ENTITIES && e != p :: entities.ComponentsOf(e) == old(entities.ComponentsOf(e))
  {
    entities.AddComponent(p, velocity);
    entities.AddComponent(p, projectile);
    UpdateTwiceIsUnion(old(entities.ComponentsOf(p)), VelocityKind, velocity, ProjectileKind, projectile);
  }

  lemma UnionEmpty<K, V>(m: map<K, V>)
    ensures m + map[] == m
  {
  }

  /** The Player/Enemy branches of `handleShoot`, on the projectile `p` of `shooter`. */
  method AddShotMotion(entities: EntityManager, p: EntityId, shooter: EntityId, ultimate: bool, shootY: real)
    requires entities.Valid() && p < MAX_ENTITIES && shooter < MAX_ENTITIES && p != shooter
    modifies entities`componentArrays, entities.componentMasks, entities.registry
    ensures entities.Valid()
    ensures WellKinded(old(entities.ComponentsOf(shooter)))
    ensures entities.ComponentsOf(p) == old(entities.ComponentsOf(p)) + ShotMotion(old(entities.ComponentsOf(shooter)), ultimate, shootY)
    ensures forall e | 0 <= e < MAX_ENTITIES && e != p :: entities.ComponentsOf(e) == old(entities.ComponentsOf(e))
  {
    entities.ViewWellKinded(shooter);
    var isPlayer := entities.HasComponent(shooter, PlayerKind);
    if isPlayer {
      var speed := if ultimate then PLAYER_ULTIMATE_SPEED else PLAYER_SHOT_SPEED;
      var damage := if ultimate then ULTIMATE_DAMAGE else SHOT_DAMAGE;
      AddMotion(entities, p, Velocity(speed, shootY), Projectile(damage, PLAYER_ORIGIN, true, ultimate));
    } else {
      AddEnemyMotion(entities, p, shooter, ultimate, shootY);
    }
  }

  /** The Enemy branch: the projectile flies left at the enemy's `speedShoot`. */
  method AddEnemyMotion(entities: EntityManager, p: EntityId, shooter: EntityId, ultimate: bool, shootY: real)
    requires entities.Valid() && p < MAX_ENTITIES && shooter < MAX_ENTITIES && p != shooter
    requires PlayerKind !in entities.ComponentsOf(shooter)
    modifies entities`componentArrays, entities.componentMasks, entities.registry
    ensures entities.Valid()
    ensures WellKinded(old(entities.ComponentsOf(shooter)))
    ensures entities.ComponentsOf(p) == old(entities.ComponentsOf(p)) + ShotMotion(old(entities.ComponentsOf(shooter)), ultimate, shootY)
    ensures forall e | 0 <= e < MAX_ENTITIES && e != p :: entities.ComponentsOf(e) == old(entities.ComponentsOf(e))
  {
    entities.ViewWellKinded(shooter);
    var isEnemy := entities.HasComponent(shooter, EnemyKind);
    if isEnemy {
      AddEnemyShotMotion(entities, p, shooter, ultimate, shootY);
    } else {
      assert ShotMotion(entities.ComponentsOf(shooter), ultimate, shootY) == map[];
      UnionEmpty(old(entities.ComponentsOf(p)));
    }
  }

  /** An enemy's shot: the projectile flies left at the enemy's `speedShoot`. */
  method AddEnemyShotMotion(entities: EntityManager, p: EntityId, shooter: EntityId, ultimate: bool, shootY: real)
    requires entities.Valid() && p < MAX_ENTITIES && shooter < MAX_ENTITIES && p != shooter
    requires PlayerKind !in entities.ComponentsOf(shooter) && EnemyKind in entities.ComponentsOf(shooter)
    requires WellKinded(entities.ComponentsOf(shooter))
    modifies entities`componentArrays, entities.componentMasks, entities.registry
    ensures entities.Valid()
    ensures entities.ComponentsOf(p) == old(entities.ComponentsOf(p)) + ShotMotion(old(entities.ComponentsOf(shooter)), ultimate, shootY)
    ensures forall e | 0 <= e < MAX_ENTITIES && e != p :: entities.ComponentsOf(e) == old(entities.ComponentsOf(e))
  {
    var enemy := entities.GetComponent(shooter, EnemyKind);
    var damage := if ultimate then ULTIMATE_DAMAGE else SHOT_DAMAGE;
    var velocity := Velocity(enemy.speedShoot * -1.0, shootY);
    var projectile := Projectile(damage, ENEMY_ORIGIN, true, ultimate);
    assert ShotMotion(entities.ComponentsOf(shooter), ultimate, shootY) == map[VelocityKind := velocity, ProjectileKind := projectile];
    AddMotion(entities, p, velocity, projectile);
  }

  /** `createEntity`, then the projectile's Position at `position`; the new entity is never the live shooter. */
  method Spawn(entities: EntityManager, shooter: EntityId, position: Component) returns (p: EntityId)
    requires entities.Valid() && shooter !in entities.availableEntities
    requires |entities.availableEntities| > 0 && position.Position?
    modifies entities`availableEntities, entities`componentArrays, entities.componentMasks, entities.registry
    ensures entities.Valid()
    ensures p == old(entities.availableEntities[|entities.availableEntities| - 1]) && p < MAX_ENTITIES && p != shooter
    ensures entities.availableEntities == old(entities.availableEntities[..|entities.availableEntities| - 1])
    ensures entities.ComponentsOf(p) == old(entities.ComponentsOf(p))[PositionKind := position]
    ensures forall e | 0 <= e < MAX_ENTITIES && e != p :: entities.ComponentsOf(e) == old(entities.ComponentsOf(e))
  {
    p := entities.CreateEntity();
    assert p != shooter by {
      assert p == old(entities.availableEntities)[|old(entities.availableEntities)| - 1];
    }
    entities.AddComponent(p, Position(position.x, position.y));
  }

  /** A shot by `shooter`, which has a Position: a new entity at its position, then the motion. */
  method Fire(entities: EntityManager, shooter: EntityId, ultimate: bool, shootY: real) returns (p: EntityId)
    requires entities.Valid() && shooter < MAX_ENTITIES && shooter !in entities.availableEntities
    requires |entities.availableEntities| > 0 && PositionKind in entities.ComponentsOf(shooter)
    modifies entities`availableEntities, entities`componentArrays, entities.componentMasks, entities.registry
    ensures entities.Valid()
    ensures WellKinded(old(entities.ComponentsOf(shooter)))
    ensures p == old(entities.availableEntities[|entities.availableEntities| - 1]) && p < MAX_ENTITIES
    ensures entities.availableEntities == old(entities.availableEntities[..|entities.availableEntities| - 1])
    ensures entities.ComponentsOf(p) ==
      old(entities.ComponentsOf(p)) + ShotComponents(old(entities.ComponentsOf(shooter)), ultimate, shootY)
    ensures forall e | 0 <= e < MAX_ENTITIES && e != p :: entities.ComponentsOf(e) == old(entities.ComponentsOf(e))
  {
    entities.ViewWellKinded(shooter);
    var position := entities.GetComponent(shooter, PositionKind);
    p := Spawn(entities, shooter, position);
    AddShotMotion(entities, p, shooter, ultimate, shootY);
    UpdateThenUnion(old(entities.ComponentsOf(p)), PositionKind, position,
                    ShotMotion(old(entities.ComponentsOf(shooter)), ultimate, shootY));
  }

  /**
   * The part of `handleShoot` that runs once the cooldowns allow the shot: it
   * reports whether the shooter is a player (whose timers then restart) and
   * fires when the shooter has a Position.
   */
  method Shoot(entities: EntityManager, entity: EntityId, ultimate: bool, shootY: real) returns (isPlayer: bool)
    requires entities.Valid() && entity < MAX_ENTITIES && entity !in entities.availableEntities
    requires PositionKind in entities.ComponentsOf(entity) ==> |entities.availableEntities| > 0
    modifies entities`availableEntities, entities`componentArrays, entities.componentMasks, entities.registry
    ensures entities.Valid()
    ensures isPlayer == (PlayerKind in old(entities.ComponentsOf(entity)))
    ensures PositionKind !in old(entities.ComponentsOf(entity)) ==>
      entities.availableEntities == old(entities.availableEntities) &&
      forall e | 0 <= e < MAX_ENTITIES :: entities.ComponentsOf(e) == old(entities.ComponentsOf(e))
    ensures PositionKind in old(entities.ComponentsOf(entity)) ==>
      var p := old(entities.availableEntities[|entities.availableEntities| - 1]);
      WellKinded(old(entities.ComponentsOf(entity))) && p < MAX_ENTITIES &&
      entities.availableEntities == old(entities.availableEntities[..|entities.availableEntities| - 1]) &&
      entities.ComponentsOf(p) == old(entities.ComponentsOf(p)) + ShotComponents(old(entities.ComponentsOf(entity)), ultimate, shootY) &&
      forall e | 0 <= e < MAX_ENTITIES && e != p :: entities.ComponentsOf(e) == old(entities.ComponentsOf(e))
  {
    isPlayer := entities.HasComponent(entity, PlayerKind);
    var hasPosition := entities.HasComponent(entity, PositionKind);
    if hasPosition {
      var p := Fire(entities, entity, ultimate, shootY);
    }
  }

  class ShootSystem {
    var lastShootTime: int
    var lastUltimateTime: int

    /** Both timers start at construction time, so nothing can be fired for the first 200 ms. */
    constructor (now: int)
      ensures lastShootTime == now && lastUltimateTime == now
    {
      lastShootTime := now;
      lastUltimateTime := now;
    }

    /** The timers restart only for a player's shot, the ultimate timer only on an ultimate. */
    method RestartTimers(isPlayer: bool, ultimate: bool, now: int)
      modifies this
      ensures lastShootTime == if isPlayer then now else old(lastShootTime)
      ensures lastUltimateTime == if isPlayer && ultimate then now else old(lastUltimateTime)
    {
      if isPlayer {
        lastShootTime := now;
        if ultimate {
          lastUltimateTime := now;
        }
      }
    }

    /**
     * `handleShoot` at time `now`. When the cooldowns allow the shot, a
     * player's timers restart, and a shooter with a Position gets one new
     * entity carrying `ShotComponents`. The shooter must be a live entity, and
     * a shot that creates an entity needs a free id (`createEntity` does not
     * check).
     */
    method HandleShoot(entities: EntityManager, entity: EntityId, ultimate: bool, shootY: real, now: int)
      requires entities.Valid() && entity < MAX_ENTITIES && entity !in entities.availableEntities
      requires ShotAllowed(now, lastShootTime, lastUltimateTime, ultimate) && PositionKind in entities.ComponentsOf(entity) ==>
        |entities.availableEntities| > 0
      modifies this, entities`availableEntities, entities`componentArrays, entities.componentMasks, entities.registry
      ensures entities.Valid()
      ensures var fired := old(ShotAllowed(now, lastShootTime, lastUltimateTime, ultimate)) && PlayerKind in old(entities.ComponentsOf(entity));
        lastShootTime == (if fired then now else old(lastShootTime)) &&
        lastUltimateTime == (if fired && ultimate then now else old(lastUltimateTime))
      ensures !(old(ShotAllowed(now, lastShootTime, lastUltimateTime, ultimate)) && PositionKind in old(entities.ComponentsOf(entity))) ==>
        entities.availableEntities == old(entities.availableEntities) &&
        forall e | 0 <= e < MAX_ENTITIES :: entities.ComponentsOf(e) == old(entities.ComponentsOf(e))
      ensures old(ShotAllowed(now, lastShootTime, lastUltimateTime, ultimate)) && PositionKind in old(entities.ComponentsOf(entity)) ==>
        var p := old(entities.availableEntities[|entities.availableEntities| - 1]);
        WellKinded(old(entities.ComponentsOf(entity))) && p < MAX_ENTITIES &&
        entities.availableEntities == old(entities.availableEntities[..|entities.availableEntities| - 1]) &&
        entities.ComponentsOf(p) == old(entities.ComponentsOf(p)) + ShotComponents(old(entities.ComponentsOf(entity)), ultimate, shootY) &&
        forall e | 0 <= e < MAX_ENTITIES && e != p :: entities.ComponentsOf(e) == old(entities.ComponentsOf(e))
    {
      var canShoot := now - lastShootTime >= SHOOT_COOLDOWN_MS;
      var canUltimate := now - lastUltimateTime >= ULTIMATE_COOLDOWN_MS;
      if canShoot && (!ultimate || (ultimate && canUltimate)) {
        var isPlayer := Shoot(entities, entity, ultimate, shootY);
        RestartTimers(isPlayer, ultimate, now);
      }
    }
  }
}
