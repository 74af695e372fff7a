// The frame advance of AnimationSystem::update, which
// client/systems/AnimationSystem.cpp and clientECS/systems/AnimationSystem.hpp
// implement identically: every entity with a RenderComponent accumulates dt,
// and once the timer reaches frameTime the frame moves on by one, modulo
// frameCount, and the sprite shows that frame's cell of the sheet. Timers are
// reals; the C++ `%` on int is `TruncMod`.
module Animation {
  import opened Common
  import opened Components
  import opened Ecs

  /** `(currentFrame + 1) % frameCount`. */
  function NextFrame(frame: int, count: int): (r: int)
    requires count != 0
    ensures 0 <= frame && count > 0 ==> 0 <= r < count
  {
    TruncMod(frame + 1, count)
  }

  /** The frame shown after `n` advances. */
  function FrameAfter(frame: int, count: int, n: nat): int
    requires count != 0
    decreases n
  {
    if n == 0 then frame else NextFrame(FrameAfter(frame, count, n - 1), count)
  }

  /** `n` advances from a frame in range land on frame `(frame + n) % count`. */
  lemma {:induction false} FramesCycle(frame: int, count: int, n: nat)
    requires 0 <= frame < count
    ensures FrameAfter(frame, count, n) == (frame + n) % count
    decreases n
  {
    if n == 0 {
      ModUnique(frame, count, 0, frame);
    } else {
      FramesCycle(frame, count, n - 1);
      ModSucc(frame + n - 1, count);
    }
  }

  /** Euclidean division is unique. */
  lemma ModUnique(x: int, count: int, q: int, r: int)
    requires count > 0 && 0 <= r < count && x == q * count + r
    ensures x % count == r
  {
    var q', r' := x / count, x % count;
    assert (q - q') * count == r' - r;
    if q - q' >= 1 {
      assert false;
    } else if q - q' <= -1 {
      assert false;
    }
  }

  /** Adding one before or after taking the remainder gives the same frame. */
  lemma ModSucc(x: nat, count: int)
    requires count > 0
    ensures TruncMod(x % count + 1, count) == (x + 1) % count
  {
    var q, m := x / count, x % count;
    if m + 1 < count {
      ModUnique(m + 1, count, 0, m + 1);
      ModUnique(x + 1, count, q, m + 1);
    } else {
      ModUnique(m + 1, count, 1, 0);
      ModUnique(x + 1, count, q + 1, 0);
    }
  }

  /** After `frameCount` advances the animation is back at the frame it started from. */
  lemma AnimationLoops(frame: int, count: int)
    requires 0 <= frame < count
    ensures FrameAfter(frame, count, count) == frame
  {
    FramesCycle(frame, count, count);
    ModUnique(frame + count, count, 1, frame);
  }

  /** The timer of `render` reaches `frameTime` after `dt` more seconds. */
  predicate Reaches(render: Component, dt: real)
    requires render.Render?
  {
    render.animationTimer + dt >= render.frameTime
  }

  /**
   * A RenderComponent after one `update(dt)`: the timer grows by dt; once it
   * reaches `frameTime` it restarts at 0, the frame advances and the texture
   * rectangle moves to that frame's cell. Nothing else about it changes.
   */
  function Animated(render: Component, dt: real): (r: Component)
    requires render.Render? && (Reaches(render, dt) ==> render.frameCount != 0)
    ensures r.Render? && KindOf(r) == RenderKind
    ensures r.frameTime == render.frameTime && r.frameCount == render.frameCount
    ensures r.frameWidth == render.frameWidth && r.frameHeight == render.frameHeight
    ensures !Reaches(render, dt) ==>
      r.currentFrame == render.currentFrame && r.textureRect == render.textureRect &&
      r.animationTimer == render.animationTimer + dt
    ensures Reaches(render, dt) ==>
      r.animationTimer == 0.0 && r.currentFrame == NextFrame(render.currentFrame, render.frameCount) &&
      r.textureRect == Rect(r.currentFrame * r.frameWidth, 0, r.frameWidth, r.frameHeight)
    ensures 0 <= render.currentFrame < render.frameCount ==> 0 <= r.currentFrame < r.frameCount
  {
    var timer := render.animationTimer + dt;
    if timer >= render.frameTime then
      var frame := NextFrame(render.currentFrame, render.frameCount);
      render.(animationTimer := 0.0, currentFrame := frame,
              textureRect := Rect(frame * render.frameWidth, 0, render.frameWidth, render.frameHeight))
    else
      render.(animationTimer := timer)
  }

  /** The `%` is well defined: an entity whose timer is about to reach `frameTime` has a non-zero `frameCount`. */
  predicate Animatable(view: map<Kind, Component>, dt: real)
  {
    RenderKind in view && view[RenderKind].Render? && Reaches(view[RenderKind], dt) ==>
      view[RenderKind].frameCount != 0
  }

  /** What one `update(dt)` does to one entity: only its RenderComponent, if it has one, changes. */
  function AnimatedView(view: map<Kind, Component>, dt: real): (r: map<Kind, Component>)
    requires WellKinded(view) && Animatable(view, dt)
    ensures WellKinded(r) && r.Keys == view.Keys
    ensures forall k | k in view && k != RenderKind :: r[k] == view[k]
    ensures RenderKind in view ==> r[RenderKind] == Animated(view[RenderKind], dt)
  {
    if RenderKind in view then view[RenderKind := Animated(view[RenderKind], dt)] else view
  }

  /**
   * The body of the `if` for one RenderComponent, in place: `animationTimer
   * += dt`, then, once it reaches `frameTime`, the reset, the frame advance
   * and `setTextureRect`.
   */
  method Advance(render: Component, dt: real) returns (r: Component)
    requires render.Render? && (Reaches(render, dt) ==> render.frameCount != 0)
    ensures r == Animated(render, dt)
  {
    r := render.(animationTimer := render.animationTimer + dt);
    if r.animationTimer >= r.frameTime {
      r := r.(animationTimer := 0.0);
      r := r.(currentFrame := TruncMod(r.currentFrame + 1, r.frameCount));
      var xPos := r.currentFrame * r.frameWidth;
      r := r.(textureRect := Rect(xPos, 0, r.frameWidth, r.frameHeight));
    }
  }

  /** The RenderComponent slot of `entity`, read, advanced and written back through its reference. */
  method AnimateRender(entities: EntityManager, entity: EntityId, dt: real)
    requires entities.Valid() && entity < MAX_ENTITIES && RenderKind in entities.ComponentsOf(entity)
    requires WellKinded(entities.ComponentsOf(entity)) && Animatable(entities.ComponentsOf(entity), dt)
    modifies entities`componentArrays
    ensures entities.Valid()
    ensures entities.ComponentsOf(entity) == AnimatedView(old(entities.ComponentsOf(entity)), dt)
    ensures forall e | 0 <= e < MAX_ENTITIES && e != entity :: entities.ComponentsOf(e) == old(entities.ComponentsOf(e))
  {
    var render := entities.GetComponent(entity, RenderKind);
    var advanced := Advance(render, dt);
    assert entities.HasVector(RenderKind);
    entities.WriteComponent(entity, advanced);
  }

  /** The loop body for one entity: `hasComponent<RenderComponent>`, then the advance. */
  method AnimateEntity(entities: EntityManager, entity: EntityId, dt: real)
    requires entities.Valid() && entity < MAX_ENTITIES && Animatable(entities.ComponentsOf(entity), dt)
    modifies entities`componentArrays, entities.registry
    ensures entities.Valid()
    ensures WellKinded(old(entities.ComponentsOf(entity)))
    ensures entities.ComponentsOf(entity) == AnimatedView(old(entities.ComponentsOf(entity)), dt)
    ensures forall e | 0 <= e < MAX_ENTITIES && e != entity :: entities.ComponentsOf(e) == old(entities.ComponentsOf(e))
  {
    entities.ViewWellKinded(entity);
    var hasRender := entities.HasComponent(entity, RenderKind);
    if hasRender {
      AnimateRender(entities, entity, dt);
    }
  }

  /**
   * `AnimationSystem::update(manager, dt)`: the loop over every entity id.
   * The modulus must be non-zero wherever a frame advances.
   */
  method Update(entities: EntityManager, dt: real)
    requires entities.Valid()
    requires forall e | 0 <= e < MAX_ENTITIES :: Animatable(entities.ComponentsOf(e), dt)
    modifies entities`componentArrays, entities.registry
    ensures entities.Valid()
    ensures forall e | 0 <= e < MAX_ENTITIES ::
      WellKinded(old(entities.ComponentsOf(e))) && Animatable(old(entities.ComponentsOf(e)), dt) &&
      entities.ComponentsOf(e) == AnimatedView(old(entities.ComponentsOf(e)), dt)
  {
    for entity := 0 to MAX_ENTITIES
      invariant entities.Valid()
      invariant forall e | 0 <= e < entity ::
        WellKinded(old(entities.ComponentsOf(e))) && Animatable(old(entities.ComponentsOf(e)), dt) &&
        entities.ComponentsOf(e) == AnimatedView(old(entities.ComponentsOf(e)), dt)
      invariant forall e | entity <= e < MAX_ENTITIES :: entities.ComponentsOf(e) == old(entities.ComponentsOf(e))
    {
      AnimateEntity(entities, entity, dt);
    }
  }
}
