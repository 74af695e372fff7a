// The component records the entity store holds: Position, Velocity
// (shared/ecs/Component.hpp), the render/animation record
// (client/gameComponents/RenderComponent.hpp), and the game components that
// the systems and the client handlers create. Projectile, Enemy, Player,
// HealthBonus and Wall are not declared in any shown header; they keep only
// the fields their call sites use, in initialiser order.
module Components {

  /** One tag per component type: the C++ template argument `T`. */
  datatype Kind =
    | PositionKind | VelocityKind | ProjectileKind | EnemyKind
    | PlayerKind | HealthBonusKind | WallKind | RenderKind

  /** An integer rectangle of a sprite sheet (`sf::IntRect`). */
  datatype Rect = Rect(left: int, top: int, width: int, height: int)

  datatype Component =
    | Position(x: real, y: real)
    | Velocity(dx: real, dy: real)
    | Projectile(damage: real, origin: int, active: bool, ultimate: bool)
    | Enemy(tag: int, speedShoot: real)
    | Player
    | HealthBonus(amount: int)
    | Wall(strength: int)
      /** RenderComponent; of its sprite only the texture rectangle is kept. */
    | Render(textureRect: Rect, animationTimer: real, currentFrame: int,
             frameTime: real, frameCount: int, frameWidth: int, frameHeight: int)

  function KindOf(c: Component): Kind
  {
    match c
    case Position(_, _) => PositionKind
    case Velocity(_, _) => VelocityKind
    case Projectile(_, _, _, _) => ProjectileKind
    case Enemy(_, _) => EnemyKind
    case Player => PlayerKind
    case HealthBonus(_) => HealthBonusKind
    case Wall(_) => WallKind
    case Render(_, _, _, _, _, _, _) => RenderKind
  }

  /** Every component is stored under its own type. */
  predicate WellKinded(view: map<Kind, Component>)
  {
    forall k | k in view :: KindOf(view[k]) == k
  }

  /** RenderComponent's member initialisers; a default sprite has an empty rectangle. */
  const DefaultRender: Component := Render(Rect(0, 0, 0, 0), 0.0, 0, 0.1, 5, 33, 17)

  /** The value-initialised `T{}` that `std::vector<T>(n)` fills a new component vector with. */
  function Default(k: Kind): (c: Component)
    ensures KindOf(c) == k
  {
    match k
    case PositionKind => Position(0.0, 0.0)
    case VelocityKind => Velocity(0.0, 0.0)
    case ProjectileKind => Projectile(0.0, 0, false, false)
    case EnemyKind => Enemy(0, 0.0)
    case PlayerKind => Player
    case HealthBonusKind => HealthBonus(0)
    case WallKind => Wall(0)
    case RenderKind => DefaultRender
  }

  const AllKinds: set<Kind> :=
    {PositionKind, VelocityKind, ProjectileKind, EnemyKind, PlayerKind, HealthBonusKind, WallKind, RenderKind}

  /** Every tag is one of the eight, so at most eight component-type ids are ever handed out. */
  lemma AllKindsCount()
    ensures forall k: Kind :: k in AllKinds
    ensures |AllKinds| == 8
  {
    forall k: Kind ensures k in AllKinds {
      match k
      case PositionKind =>
      case VelocityKind =>
      case ProjectileKind =>
      case EnemyKind =>
      case PlayerKind =>
      case HealthBonusKind =>
      case WallKind =>
      case RenderKind =>
    }
  }
}
