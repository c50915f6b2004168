/** The ECS component records that the collision pipeline reads and writes
    (engine/components.h), and the entity record of the model's entity store. */
module Components {
  import opened Wrappers

  /** flecs::entity_t, an unsigned 64-bit entity id. */
  newtype Id = x: int | 0 <= x < 0x1_0000_0000_0000_0000

  datatype ColliderType = Rect | Circle | Triangle

  /** E_Transform: position, z-order, rotation in degrees and scale. */
  datatype Transform = Transform(x: real, y: real, layer: real, angle: real, xScale: real, yScale: real)

  datatype Velocity = Velocity(vx: real, vy: real, freeze: bool)

  datatype Gravity = Gravity(a: real, work: bool)

  datatype Collider = Collider(
    kind: ColliderType,
    width: real, height: real, radius: real,
    isStatic: bool, isTrigger: bool, active: bool,
    layer: int,
    offsetX: real, offsetY: real)

  datatype PhysicsMaterial = PhysicsMaterial(restitution: real, friction: real)

  /** The value of an E_Mass component as it is stored on an entity. */
  datatype Mass = Mass(mass: real, invMass: real)

  /** E_CollisionEvent: the two entities and whether either collider is a trigger. */
  datatype CollisionEvent = CollisionEvent(a: Id, b: Id, isTrigger: bool)

  /** One row of the entity store: the components an entity has. `nanCentre` stands for a
      collider centre (transform position plus offset) with a NaN coordinate, and
      `sceneEntity` for the SceneEntity tag that scene loading deletes by. */
  datatype Entity = Entity(
    transform: Option<Transform>,
    collider: Option<Collider>,
    velocity: Option<Velocity>,
    gravity: Option<Gravity>,
    mass: Option<Mass>,
    material: Option<PhysicsMaterial>,
    nanCentre: bool,
    sceneEntity: bool)

  /** Member of the query over (E_Transform, E_Collider). */
  predicate Collidable(e: Entity) {
    e.transform.Some? && e.collider.Some?
  }

  // ---------------------------------------------------------------------------
  // Field defaults
  // ---------------------------------------------------------------------------

  /** A default-constructed E_Collider. */
  function DefaultCollider(): (c: Collider)
    ensures c.kind == Rect && c.width == 0.0 && c.height == 0.0 && c.radius == 0.0
    ensures !c.isStatic && !c.isTrigger && c.active
    ensures c.layer == 1 && c.offsetX == 0.0 && c.offsetY == 0.0
  {
    Collider(Rect, 0.0, 0.0, 0.0, false, false, true, 1, 0.0, 0.0)
  }

  /** A default-constructed E_PhysicsMaterial. */
  function DefaultMaterial(): (p: PhysicsMaterial)
    ensures p.restitution == 0.3 && p.friction == 0.3
  {
    PhysicsMaterial(0.3, 0.3)
  }

  /** A default-constructed E_Velocity. */
  function DefaultVelocity(): (v: Velocity)
    ensures v.vx == 0.0 && v.vy == 0.0 && !v.freeze
  {
    Velocity(0.0, 0.0, false)
  }

  /** A default-constructed E_Gravity. */
  function DefaultGravity(): (g: Gravity)
    ensures g.a == 9.81 && g.work
  {
    Gravity(9.81, true)
  }

  // ---------------------------------------------------------------------------
  // E_Mass
  // ---------------------------------------------------------------------------

  /** The relation every E_Mass constructor and setStatic establish:
      invMass is 1/mass for a positive mass and 0 otherwise. */
  predicate ConsistentMass(m: Mass) {
    m.invMass == if m.mass > 0.0 then 1.0 / m.mass else 0.0
  }

  /** A consistent mass has a non-negative inverse mass, zero exactly for a non-positive
      ("infinite", immovable) mass, and is a true inverse otherwise. */
  lemma ConsistentMassIsInverse(m: Mass)
    requires ConsistentMass(m)
    ensures m.invMass >= 0.0
    ensures m.invMass == 0.0 <==> m.mass <= 0.0
    ensures m.mass > 0.0 ==> m.mass * m.invMass == 1.0
  {
    if m.mass > 0.0 {
      assert m.invMass * m.mass == 1.0;
    }
  }

  /** E_Mass, a struct whose constructors compute invMass and whose setStatic
      rewrites both fields. */
  class EMass {
    var mass: real
    var invMass: real

    /** The value stored on an entity when this component is set. */
    function Value(): (v: Mass)
      reads this
      ensures v.mass == mass && v.invMass == invMass
    {
      Mass(mass, invMass)
    }

    /** E_Mass(): unit mass. */
    constructor ()
      ensures mass == 1.0 && invMass == 1.0
      ensures ConsistentMass(Value())
    {
      mass := 1.0;
      invMass := 1.0;
    }

    /** E_Mass(m): invMass is 1/m for a positive m and 0 otherwise. */
    constructor FromMass(m: real)
      ensures mass == m
      ensures m > 0.0 ==> invMass == 1.0 / m
      ensures m <= 0.0 ==> invMass == 0.0
      ensures ConsistentMass(Value())
    {
      mass := m;
      invMass := if m > 0.0 then 1.0 / m else 0.0;
    }

    /** setStatic(): both fields become 0, an immovable body. */
    method SetStatic()
      modifies this
      ensures mass == 0.0 && invMass == 0.0
      ensures ConsistentMass(Value())
    {
      mass := 0.0;
      invMass := 0.0;
    }
  }
}
