// shared/systems/MouvementSystem.hpp: every entity with a Position and a
// Velocity moves by velocity * dt, then its position is clamped to the
// 795 x 590 play area. Coordinates and dt are reals; float rounding is not
// modelled.
module Movement {
  import opened Components
  import opened Ecs

  const MAX_X: real := 795.0
  const MAX_Y: real := 590.0

  /** `if (v < 0) v = 0; if (v > hi) v = hi;` */
  function Clamp(v: real, hi: real): (r: real)
    requires hi >= 0.0
    ensures 0.0 <= r <= hi
    ensures 0.0 <= v <= hi ==> r == v
    ensures v < 0.0 ==> r == 0.0
    ensures v > hi ==> r == hi
  {
    var low := if v < 0.0 then 0.0 else v;
    if low > hi then hi else low
  }

  /** The new Position of an entity at `position` moving at `velocity` for `dt`: integrated, then clamped. */
  function Step(position: Component, velocity: Component, dt: real): (r: Component)
    requires position.Position? && velocity.Velocity?
    ensures r.Position? && 0.0 <= r.x <= MAX_X && 0.0 <= r.y <= MAX_Y
    ensures 0.0 <= position.x + velocity.dx * dt <= MAX_X ==> r.x == position.x + velocity.dx * dt
    ensures 0.0 <= position.y + velocity.dy * dt <= MAX_Y ==> r.y == position.y + velocity.dy * dt
  {
    Position(Clamp(position.x + velocity.dx * dt, MAX_X), Clamp(position.y + velocity.dy * dt, MAX_Y))
  }

  /**
   * What one `update(dt)` does to the components of one entity: only an
   * entity with both a Position and a Velocity moves, and only its Position
   * changes.
   */
  function Moved(view: map<Kind, Component>, dt: real): (r: map<Kind, Component>)
    requires WellKinded(view)
    ensures WellKinded(r) && r.Keys == view.Keys
    ensures forall k | k in view && k != PositionKind :: r[k] == view[k]
    ensures !(PositionKind in view && VelocityKind in view) ==> r == view
    ensures PositionKind in view && VelocityKind in view ==>
      r[PositionKind] == Step(view[PositionKind], view[VelocityKind], dt)
  {
    if PositionKind in view && VelocityKind in view then
      view[PositionKind := Step(view[PositionKind], view[VelocityKind], dt)]
    else
      view
  }

  /** Once a position is inside the play area, a step with zero velocity or zero dt leaves the entity as it is. */
  lemma StillEntityStays(view: map<Kind, Component>, dt: real)
    requires WellKinded(view) && PositionKind in view && VelocityKind in view
    requires 0.0 <= view[PositionKind].x <= MAX_X && 0.0 <= view[PositionKind].y <= MAX_Y
    requires dt == 0.0 || (view[VelocityKind].dx == 0.0 && view[VelocityKind].dy == 0.0)
    ensures Moved(view, dt) == view
  {
    var p := view[PositionKind];
    var v := view[VelocityKind];
    assert v.dx * dt == 0.0 && v.dy * dt == 0.0;
    assert p == Position(p.x, p.y);
  }

  /** Successive updates with the given time steps. */
  function MovedBy(view: map<Kind, Component>, steps: seq<real>): (r: map<Kind, Component>)
    requires WellKinded(view)
    ensures WellKinded(r)
    decreases |steps|
  {
    if |steps| == 0 then view else MovedBy(Moved(view, steps[0]), steps[1..])
  }

  /** However many updates run, with whatever time steps, an entity that starts inside the area stays inside it and keeps its Velocity. */
  lemma {:induction false} MovedStaysInArea(view: map<Kind, Component>, steps: seq<real>)
    requires WellKinded(view) && PositionKind in view && VelocityKind in view
    requires 0.0 <= view[PositionKind].x <= MAX_X && 0.0 <= view[PositionKind].y <= MAX_Y
    ensures var r := MovedBy(view, steps);
      r.Keys == view.Keys && r[VelocityKind] == view[VelocityKind] &&
      0.0 <= r[PositionKind].x <= MAX_X && 0.0 <= r[PositionKind].y <= MAX_Y
    decreases |steps|
  {
    if |steps| > 0 {
      var next := Moved(view, steps[0]);
      MovedStaysInArea(next, steps[1..]);
    }
  }

  /** The loop body for one entity: the two `hasComponent` checks, then the in-place move. */
  method MoveEntity(entities: EntityManager, entity: EntityId, dt: real)
    requires entities.Valid() && entity < MAX_ENTITIES
    modifies entities`componentArrays, entities.registry
    ensures entities.Valid()
    ensures WellKinded(old(entities.ComponentsOf(entity)))
    ensures entities.ComponentsOf(entity) == Moved(old(entities.ComponentsOf(entity)), dt)
    ensures forall e | 0 <= e < MAX_ENTITIES && e != entity :: entities.ComponentsOf(e) == old(entities.ComponentsOf(e))
  {
    entities.ViewWellKinded(entity);
    var hasPosition := entities.HasComponent(entity, PositionKind);
    if hasPosition {
      MoveIfMoving(entities, entity, dt);
    }
  }

  /** The second check, `hasComponent<Velocity>`, on an entity that has a Position. */
  method MoveIfMoving(entities: EntityManager, entity: EntityId, dt: real)
    requires entities.Valid() && entity < MAX_ENTITIES && PositionKind in entities.ComponentsOf(entity)
    requires WellKinded(entities.ComponentsOf(entity))
    modifies entities`componentArrays, entities.registry
    ensures entities.Valid()
    ensures entities.ComponentsOf(entity) == Moved(old(entities.ComponentsOf(entity)), dt)
    ensures forall e | 0 <= e < MAX_ENTITIES && e != entity :: entities.ComponentsOf(e) == old(entities.ComponentsOf(e))
  {
    var hasVelocity := entities.HasComponent(entity, VelocityKind);
    if hasVelocity {
      Integrate(entities, entity, dt);
    }
  }

  /** The two clamps of one coordinate, applied in place. */
  method ClampCoordinate(v: real, hi: real) returns (r: real)
    requires hi >= 0.0
    ensures r == Clamp(v, hi)
  {
    r := v;
    if r < 0.0 { r := 0.0; }
    if r > hi { r := hi; }
  }

  /** The move through the reference to the Position slot. */
  method Integrate(entities: EntityManager, entity: EntityId, dt: real)
    requires entities.Valid() && entity < MAX_ENTITIES
    requires PositionKind in entities.ComponentsOf(entity) && VelocityKind in entities.ComponentsOf(entity)
    requires WellKinded(entities.ComponentsOf(entity))
    modifies entities`componentArrays
    ensures entities.Valid()
    ensures entities.ComponentsOf(entity) == Moved(old(entities.ComponentsOf(entity)), dt)
    ensures forall e | 0 <= e < MAX_ENTITIES && e != entity :: entities.ComponentsOf(e) == old(entities.ComponentsOf(e))
  {
    var pos := entities.GetComponent(entity, PositionKind);
    var vel := entities.GetComponent(entity, VelocityKind);
    var moved := Integrated(pos, vel, dt);
    assert entities.HasVector(PositionKind);
    entities.WriteComponent(entity, moved);
  }

  /** `pos.x += vel.dx * dt; pos.y += vel.dy * dt;` then the four clamps. */
  method Integrated(pos: Component, vel: Component, dt: real) returns (moved: Component)
    requires pos.Position? && vel.Velocity?
    ensures moved == Step(pos, vel, dt)
  {
    var x := ClampCoordinate(pos.x + vel.dx * dt, MAX_X);
    var y := ClampCoordinate(pos.y + vel.dy * dt, MAX_Y);
    moved := Position(x, y);
  }

  /**
   * `MovementSystem::update(manager, dt)`: the loop over every entity id.
   * Each entity ends up as `Moved` makes it; the free list is untouched.
   */
  method Update(entities: EntityManager, dt: real)
    requires entities.Valid()
    modifies entities`componentArrays, entities.registry
    ensures entities.Valid()
    ensures forall e | 0 <= e < MAX_ENTITIES ::
      WellKinded(old(entities.ComponentsOf(e))) && entities.ComponentsOf(e) == Moved(old(entities.ComponentsOf(e)), dt)
  {
    for entity := 0 to MAX_ENTITIES
      invariant entities.Valid()
      invariant forall e | 0 <= e < entity ::
        WellKinded(old(entities.ComponentsOf(e))) && entities.ComponentsOf(e) == Moved(old(entities.ComponentsOf(e)), dt)
      invariant forall e | entity <= e < MAX_ENTITIES :: entities.ComponentsOf(e) == old(entities.ComponentsOf(e))
    {
      MoveEntity(entities, entity, dt);
    }
  }
}
