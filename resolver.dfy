/** What resolvePair (engine/ecs_world.cpp) does to one pair of colliders: the early
    rejects, the dispatch to a separating-axis test by shape kind, the collision event,
    the positional correction split by inverse mass and the restitution impulse. These
    functions specify the resolving method of the world. */
module Resolver {
  import opened Wrappers
  import opened Components
  import opened Geometry
  import opened Sat
  import opened Broadphase

  /** The restitution used unless both entities carry an E_PhysicsMaterial. */
  const DEFAULT_RESTITUTION: real := 0.3

  /** 1e-8: a contact normal with a squared length below this gets no impulse. */
  const NORMAL_EPS: real := 0.00000001

  /** The two entity records of a pair. */
  datatype Pair = Pair(a: Entity, b: Entity)

  /** The outcome of resolving a pair: both records and the event created, if any. */
  datatype PairResult = PairResult(a: Entity, b: Entity, event: Option<CollisionEvent>)

  function Abs(x: real): real { if x < 0.0 then -x else x }

  /** The half extents of the axis-aligned early reject: (radius, radius) for a circle,
      otherwise half the width and half the height, whatever the rotation. */
  function HalfExtents(c: Collider): Vec2 {
    if c.kind == Circle then Vec2(c.radius, c.radius) else Vec2(c.width * 0.5, c.height * 0.5)
  }

  /** resolvePair returns before any test: different layers, an inactive collider, or
      centres farther apart on x or on y than the summed half extents. */
  predicate Rejected(ta: Transform, ca: Collider, tb: Transform, cb: Collider): (r: bool)
    ensures ca.layer != cb.layer || !ca.active || !cb.active ==> r
    ensures !r ==> Overlaps(Centre(ta, ca).x, HalfExtents(ca).x, Centre(tb, cb).x, HalfExtents(cb).x)
    ensures !r ==> Overlaps(Centre(ta, ca).y, HalfExtents(ca).y, Centre(tb, cb).y, HalfExtents(cb).y)
  {
    var pa := Centre(ta, ca);
    var pb := Centre(tb, cb);
    || ca.layer != cb.layer
    || !ca.active || !cb.active
    || Abs(pa.x - pb.x) > HalfExtents(ca).x + HalfExtents(cb).x
    || Abs(pa.y - pb.y) > HalfExtents(ca).y + HalfExtents(cb).y
  }

  /** The intervals [p - h, p + h] and [q - k, q + k] meet. */
  predicate Overlaps(p: real, h: real, q: real, k: real) {
    p - h <= q + k && q - k <= p + h
  }

  /** The early reject does not depend on which entity of the pair is A. */
  lemma RejectedSymmetric(ta: Transform, ca: Collider, tb: Transform, cb: Collider)
    ensures Rejected(ta, ca, tb, cb) == Rejected(tb, cb, ta, ca)
  {
  }

  predicate IsPolygon(k: ColliderType) {
    k == Rect || k == Triangle
  }

  /** The separating-axis test chosen by the two shape kinds; the translation, when
      there is one, pushes B away from A. */
  function Narrowphase(ta: Transform, ca: Collider, tb: Transform, cb: Collider, m: MathLib): (r: Option<Vec2>)
    requires ValidMath(m)
    ensures ca.kind == Circle && cb.kind == Circle ==>
      r == CircleCircle(Centre(ta, ca), ca.radius, Centre(tb, cb), cb.radius, m)
  {
    if IsPolygon(ca.kind) && IsPolygon(cb.kind) then
      PolyPoly(GetVertices(ta, ca, m), GetVertices(tb, cb, m), m)
    else if ca.kind == Circle && cb.kind == Circle then
      CircleCircle(Centre(ta, ca), ca.radius, Centre(tb, cb), cb.radius, m)
    else if ca.kind == Circle then
      Flipped(CirclePoly(Centre(ta, ca), ca.radius, GetVertices(tb, cb, m), m))
    else
      CirclePoly(Centre(tb, cb), cb.radius, GetVertices(ta, ca, m), m)
  }

  /** A circle-polygon translation turned round: for a circle as side A the test pushes
      the circle away from the polygon, and resolvePair wants B pushed away from A. */
  function Flipped(o: Option<Vec2>): (r: Option<Vec2>)
    ensures r.Some? <==> o.Some?
  {
    if o.Some? then Some(Mul(o.value, -1.0)) else None
  }

  /** The point a test pushes away from: the centre of a circle, the vertex mean of a
      polygon. */
  function BodyCentre(t: Transform, c: Collider, m: MathLib): Vec2
    requires ValidMath(m)
  {
    if c.kind == Circle then Centre(t, c) else Centroid(GetVertices(t, c, m))
  }

  /** The inverse mass of a side: its E_Mass's, else 0 for a static collider, else 1. */
  function InvMass(e: Entity): (r: real)
    requires e.collider.Some?
    ensures e.mass.Some? ==> r == e.mass.value.invMass
    ensures e.mass.None? && e.collider.value.isStatic ==> r == 0.0
    ensures e.mass.None? && !e.collider.value.isStatic ==> r == 1.0
    ensures e.mass.None? || ConsistentMass(e.mass.value) ==>
      r >= 0.0 && (r == 0.0 <==> (if e.mass.Some? then e.mass.value.mass <= 0.0 else e.collider.value.isStatic))
  {
    if e.mass.Some? then e.mass.value.invMass
    else if e.collider.value.isStatic then 0.0
    else 1.0
  }

  /** The mean of the two restitutions when both sides carry a material, else 0.3. */
  function Restitution(ea: Entity, eb: Entity): real {
    if ea.material.Some? && eb.material.Some? then
      (ea.material.value.restitution + eb.material.value.restitution) * 0.5
    else DEFAULT_RESTITUTION
  }

  function Neg(v: Vec2): Vec2 { Vec2(-v.x, -v.y) }

  function Position(e: Entity): Vec2
    requires e.transform.Some?
  {
    Vec2(e.transform.value.x, e.transform.value.y)
  }

  /** The entity with its transform moved by d. */
  function Translate(e: Entity, d: Vec2): (r: Entity)
    requires e.transform.Some?
    ensures r.transform.Some? && Position(r) == Add(Position(e), d)
    ensures r == e.(transform := r.transform)
  {
    var t := e.transform.value;
    e.(transform := Some(t.(x := t.x + d.x, y := t.y + d.y)))
  }

  /** The entity with its velocity changed by dv. */
  function Accelerate(e: Entity, dv: Vec2): (r: Entity)
    requires e.velocity.Some?
    ensures r.velocity.Some? && VelocityOf(r) == Add(VelocityOf(e), dv)
    ensures r.velocity.value.freeze == e.velocity.value.freeze
    ensures r == e.(velocity := r.velocity)
  {
    var v := e.velocity.value;
    e.(velocity := Some(v.(vx := v.vx + dv.x, vy := v.vy + dv.y)))
  }

  /** The impulse step, after the positional correction: none along a degenerate normal
      or while the bodies already separate along it; otherwise j = -(1 + e) * vn /
      (invA + invB) along the unit normal, taken off A's velocity in proportion to
      invA and added to B's in proportion to invB, for each side that has a velocity and
      a positive inverse mass. */
  function Bounce(a: Entity, b: Entity, invA: real, invB: real, mtv: Vec2, m: MathLib): (r: Pair)
    requires a.transform.Some? && b.transform.Some?
    requires invA + invB > 0.0
    ensures r.a == a.(velocity := r.a.velocity) && r.b == b.(velocity := r.b.velocity)
    ensures r.a.velocity.Some? == a.velocity.Some? && r.b.velocity.Some? == b.velocity.Some?
    ensures a.velocity.None? || invA <= 0.0 ==> r.a == a
    ensures b.velocity.None? || invB <= 0.0 ==> r.b == b
    ensures LenSq(Normalize(mtv, m)) < NORMAL_EPS ==> r == Pair(a, b)
    ensures Dot(Sub(VelocityOf(b), VelocityOf(a)), Normalize(mtv, m)) > 0.0 ==> r == Pair(a, b)
  {
    var n := Normalize(mtv, m);
    if LenSq(n) < NORMAL_EPS then Pair(a, b)
    else if Dot(Sub(VelocityOf(b), VelocityOf(a)), n) > 0.0 then Pair(a, b)
    else Kick(a, b, invA, invB, n)
  }

  /** The impulse along the contact normal n: j = -(1 + e) * vn / (invA + invB), taken
      off A's velocity in proportion to invA and added to B's in proportion to invB. */
  function Kick(a: Entity, b: Entity, invA: real, invB: real, n: Vec2): (r: Pair)
    requires invA + invB > 0.0
    ensures r.a == a.(velocity := r.a.velocity) && r.b == b.(velocity := r.b.velocity)
    ensures r.a.velocity.Some? == a.velocity.Some? && r.b.velocity.Some? == b.velocity.Some?
    ensures a.velocity.None? || invA <= 0.0 ==> r.a == a
    ensures b.velocity.None? || invB <= 0.0 ==> r.b == b
  {
    var impulse := Mul(n, ImpulseScale(a, b, invA, invB, n));
    Pair(
      if a.velocity.Some? && invA > 0.0 then Accelerate(a, Neg(Mul(impulse, invA))) else a,
      if b.velocity.Some? && invB > 0.0 then Accelerate(b, Mul(impulse, invB)) else b)
  }

  /** The impulse magnitude j = -(1 + e) * vn / (invA + invB), vn the relative velocity
      of B with respect to A along n. */
  function ImpulseScale(a: Entity, b: Entity, invA: real, invB: real, n: Vec2): real
    requires invA + invB > 0.0
  {
    -(1.0 + Restitution(a, b)) * Dot(Sub(VelocityOf(b), VelocityOf(a)), n) / (invA + invB)
  }

  /** The velocities Kick gives two sides that both take the impulse. */
  lemma KickDeltas(a: Entity, b: Entity, invA: real, invB: real, n: Vec2)
    requires a.velocity.Some? && b.velocity.Some? && invA > 0.0 && invB > 0.0
    ensures var r := Kick(a, b, invA, invB, n);
      var impulse := Mul(n, ImpulseScale(a, b, invA, invB, n));
      && VelocityOf(r.a) == Add(VelocityOf(a), Neg(Mul(impulse, invA)))
      && VelocityOf(r.b) == Add(VelocityOf(b), Mul(impulse, invB))
  {
    var impulse := Mul(n, ImpulseScale(a, b, invA, invB, n));
    assert Kick(a, b, invA, invB, n) == Pair(Accelerate(a, Neg(Mul(impulse, invA))), Accelerate(b, Mul(impulse, invB)));
  }

  /** x / t * t == x for t != 0. */
  lemma DivTimes(x: real, t: real)
    requires t != 0.0
    ensures x / t * t == x
  {
  }

  /** The positional correction of a contact with translation mtv: A moves by
      -mtv * invA / (invA + invB) and B by +mtv * invB / (invA + invB); a side with
      inverse mass 0 stays where it is. */
  function Correction(ea: Entity, eb: Entity, mtv: Vec2, invA: real, invB: real): (r: Pair)
    requires ea.transform.Some? && eb.transform.Some? && invA + invB > 0.0
    ensures r.a == ea.(transform := r.a.transform) && r.b == eb.(transform := r.b.transform)
    ensures r.a.transform.Some? && r.b.transform.Some?
    ensures invA == 0.0 ==> r.a == ea
    ensures invB == 0.0 ==> r.b == eb
  {
    var a1 := Translate(ea, Neg(Mul(mtv, invA / (invA + invB))));
    var b1 := Translate(eb, Mul(mtv, invB / (invA + invB)));
    assert invA == 0.0 ==> a1 == ea by {
      if invA == 0.0 { ZeroShareStays(ea, mtv, invA + invB); }
    }
    assert invB == 0.0 ==> b1 == eb by {
      if invB == 0.0 { ZeroShareStays(eb, mtv, invA + invB); }
    }
    Pair(a1, b1)
  }

  /** The response to a non-trigger contact with translation mtv: nothing when both
      inverse masses are 0, otherwise the correction and then the impulse step. */
  function Respond(ea: Entity, eb: Entity, mtv: Vec2, m: MathLib): (r: Pair)
    requires Collidable(ea) && Collidable(eb)
    ensures r.a == ea.(transform := r.a.transform, velocity := r.a.velocity)
    ensures r.b == eb.(transform := r.b.transform, velocity := r.b.velocity)
    ensures r.a.transform.Some? && r.b.transform.Some?
    ensures InvMass(ea) == 0.0 ==> r.a == ea
    ensures InvMass(eb) == 0.0 ==> r.b == eb
  {
    var invA := InvMass(ea);
    var invB := InvMass(eb);
    if invA == 0.0 && invB == 0.0 then Pair(ea, eb)
    else if invA + invB <= 0.0 then Pair(ea, eb)
    else
      var c := Correction(ea, eb, mtv, invA, invB);
      Bounce(c.a, c.b, invA, invB, mtv, m)
  }

  /** A side whose share of the correction is 0 stays where it is. */
  lemma ZeroShareStays(e: Entity, mtv: Vec2, total: real)
    requires e.transform.Some? && total > 0.0
    ensures Translate(e, Neg(Mul(mtv, 0.0 / total))) == e
    ensures Translate(e, Mul(mtv, 0.0 / total)) == e
  {
    assert 0.0 / total == 0.0;
    assert Mul(mtv, 0.0) == Zero;
  }

  /** resolvePair for entities idA and idB: rejected pairs, pairs with a NaN centre and
      pairs the test finds apart change nothing and create no event; every other pair creates exactly one event
      (idA, idB, either collider a trigger), and only a non-trigger pair with a positive
      total inverse mass has its transforms and velocities changed. */
  function ResolvePair(idA: Id, ea: Entity, idB: Id, eb: Entity, m: MathLib): (r: PairResult)
    requires Collidable(ea) && Collidable(eb) && ValidMath(m)
    ensures var ta, ca, tb, cb := ea.transform.value, ea.collider.value, eb.transform.value, eb.collider.value;
      r.event.Some? <==> !ea.nanCentre && !eb.nanCentre && !Rejected(ta, ca, tb, cb) && Narrowphase(ta, ca, tb, cb, m).Some?
    ensures r.event.Some? ==> r.event.value == CollisionEvent(idA, idB, ea.collider.value.isTrigger || eb.collider.value.isTrigger)
    ensures r.event.None? || r.event.value.isTrigger || (InvMass(ea) == 0.0 && InvMass(eb) == 0.0) ==>
      r.a == ea && r.b == eb
    ensures InvMass(ea) == 0.0 ==> r.a == ea
    ensures InvMass(eb) == 0.0 ==> r.b == eb
    ensures r.a == ea.(transform := r.a.transform, velocity := r.a.velocity)
    ensures r.b == eb.(transform := r.b.transform, velocity := r.b.velocity)
    ensures Collidable(r.a) && Collidable(r.b)
  {
    var ta, ca, tb, cb := ea.transform.value, ea.collider.value, eb.transform.value, eb.collider.value;
    if ea.nanCentre || eb.nanCentre || Rejected(ta, ca, tb, cb) then PairResult(ea, eb, None)
    else match Narrowphase(ta, ca, tb, cb, m)
      case None => PairResult(ea, eb, None)
      case Some(mtv) =>
        var sensor := ca.isTrigger || cb.isTrigger;
        var ev := Some(CollisionEvent(idA, idB, sensor));
        if sensor then PairResult(ea, eb, ev)
        else
          var p := Respond(ea, eb, mtv, m);
          PairResult(p.a, p.b, ev)
  }

  // ---------------------------------------------------------------------------
  // Properties of the response
  // ---------------------------------------------------------------------------

  /** The positional correction of a non-trigger contact: the offset from A to B grows by
      exactly mtv, the inverse-mass weighted displacements cancel (a side with inverse
      mass 0 does not move, and the centre of mass stays put), and the impulse step
      leaves the positions alone. */
  lemma CorrectionSplitsMtv(ea: Entity, eb: Entity, mtv: Vec2, m: MathLib)
    requires Collidable(ea) && Collidable(eb)
    requires InvMass(ea) + InvMass(eb) > 0.0
    ensures var r := Respond(ea, eb, mtv, m);
      var da := Sub(Position(r.a), Position(ea));
      var db := Sub(Position(r.b), Position(eb));
      && Sub(db, da) == mtv
      && InvMass(eb) * da.x + InvMass(ea) * db.x == 0.0
      && InvMass(eb) * da.y + InvMass(ea) * db.y == 0.0
  {
    var invA, invB := InvMass(ea), InvMass(eb);
    var r := Respond(ea, eb, mtv, m);
    var c := Correction(ea, eb, mtv, invA, invB);
    assert r == Bounce(c.a, c.b, invA, invB, mtv, m);
    assert Position(r.a) == Add(Position(ea), Neg(Mul(mtv, invA / (invA + invB))));
    assert Position(r.b) == Add(Position(eb), Mul(mtv, invB / (invA + invB)));
    SplitArithmetic(Position(ea), Position(eb), mtv, invA, invB);
  }

  /** The arithmetic of the correction, on positions alone. */
  lemma SplitArithmetic(pa: Vec2, pb: Vec2, mtv: Vec2, invA: real, invB: real)
    requires invA + invB != 0.0
    ensures var da := Sub(Add(pa, Neg(Mul(mtv, invA / (invA + invB)))), pa);
      var db := Sub(Add(pb, Mul(mtv, invB / (invA + invB))), pb);
      && Sub(db, da) == mtv
      && invB * da.x + invA * db.x == 0.0
      && invB * da.y + invA * db.y == 0.0
  {
    Fractions(invA, invB);
    Weighted(pa, pb, mtv, invA, invB, invA / (invA + invB), invB / (invA + invB));
  }

  /** The two shares of the correction add up to one and balance the inverse masses. */
  lemma Fractions(invA: real, invB: real)
    requires invA + invB != 0.0
    ensures invA / (invA + invB) + invB / (invA + invB) == 1.0
    ensures invB * (invA / (invA + invB)) == invA * (invB / (invA + invB))
  {
  }

  lemma Weighted(pa: Vec2, pb: Vec2, mtv: Vec2, invA: real, invB: real, wA: real, wB: real)
    requires wA + wB == 1.0 && invB * wA == invA * wB
    ensures var da := Sub(Add(pa, Neg(Mul(mtv, wA))), pa);
      var db := Sub(Add(pb, Mul(mtv, wB)), pb);
      && Sub(db, da) == mtv
      && invB * da.x + invA * db.x == 0.0
      && invB * da.y + invA * db.y == 0.0
  {
    assert mtv.x * wB + mtv.x * wA == mtv.x * (wA + wB);
    assert mtv.y * wB + mtv.y * wA == mtv.y * (wA + wB);
    assert invB * (mtv.x * wA) == mtv.x * (invB * wA);
    assert invA * (mtv.x * wB) == mtv.x * (invA * wB);
    assert invB * (mtv.y * wA) == mtv.y * (invB * wA);
    assert invA * (mtv.y * wB) == mtv.y * (invA * wB);
  }

  /** Bounce either leaves both sides alone or applies Kick along the normalized MTV. */
  lemma BounceCases(a: Entity, b: Entity, invA: real, invB: real, mtv: Vec2, m: MathLib)
    requires a.transform.Some? && b.transform.Some?
    requires invA + invB > 0.0
    ensures var r := Bounce(a, b, invA, invB, mtv, m);
      r == Pair(a, b) || r == Kick(a, b, invA, invB, Normalize(mtv, m))
  {
  }

  /** The impulse is equal and opposite: when both sides have a velocity and a positive
      inverse mass, invB * dvA + invA * dvB == 0, so the momentum of the pair is
      unchanged (with mass = 1 / invMass). */
  lemma ImpulseBalanced(a: Entity, b: Entity, invA: real, invB: real, n: Vec2)
    requires a.velocity.Some? && b.velocity.Some? && invA > 0.0 && invB > 0.0
    ensures var r := Kick(a, b, invA, invB, n);
      var dva := Sub(VelocityOf(r.a), VelocityOf(a));
      var dvb := Sub(VelocityOf(r.b), VelocityOf(b));
      invB * dva.x + invA * dvb.x == 0.0 && invB * dva.y + invA * dvb.y == 0.0
  {
    var impulse := Mul(n, ImpulseScale(a, b, invA, invB, n));
    KickDeltas(a, b, invA, invB, n);
    OppositeShares(impulse.x, invA, invB);
    OppositeShares(impulse.y, invA, invB);
  }

  /** invB * -(i * invA) + invA * (i * invB) == 0. */
  lemma OppositeShares(i: real, invA: real, invB: real)
    ensures invB * -(i * invA) + invA * (i * invB) == 0.0
  {
    assert invB * (i * invA) == invA * (i * invB);
  }

  /** Newton's law of restitution: when the impulse is applied to two sides with
      velocities and positive inverse masses, the relative velocity along the unit
      contact normal goes from vn <= 0 to -e * vn. */
  lemma RestitutionLaw(a: Entity, b: Entity, invA: real, invB: real, mtv: Vec2, m: MathLib)
    requires ValidMath(m)
    requires a.transform.Some? && b.transform.Some?
    requires a.velocity.Some? && b.velocity.Some? && invA > 0.0 && invB > 0.0
    ensures var r := Bounce(a, b, invA, invB, mtv, m);
      var n := Normalize(mtv, m);
      var vn := Dot(Sub(VelocityOf(b), VelocityOf(a)), n);
      LenSq(n) >= NORMAL_EPS && vn <= 0.0 ==>
        Dot(Sub(VelocityOf(r.b), VelocityOf(r.a)), n) == -Restitution(a, b) * vn
  {
    var n := Normalize(mtv, m);
    if LenSq(n) < NORMAL_EPS || Dot(Sub(VelocityOf(b), VelocityOf(a)), n) > 0.0 {
      return;
    }
    NormalizeSpec(mtv, m);
    assert Bounce(a, b, invA, invB, mtv, m) == Kick(a, b, invA, invB, n);
    KickRestitution(a, b, invA, invB, n);
  }

  lemma KickRestitution(a: Entity, b: Entity, invA: real, invB: real, n: Vec2)
    requires a.velocity.Some? && b.velocity.Some? && invA > 0.0 && invB > 0.0
    requires LenSq(n) == 1.0
    ensures Dot(Sub(VelocityOf(Kick(a, b, invA, invB, n).b), VelocityOf(Kick(a, b, invA, invB, n).a)), n) ==
      -Restitution(a, b) * Dot(Sub(VelocityOf(b), VelocityOf(a)), n)
  {
    KickRelative(a, b, invA, invB, n);
    KickAlongNormal(a, b, invA, invB, n);
  }

  /** The relative normal velocity after the impulse, before it is tied to Kick. */
  lemma KickAlongNormal(a: Entity, b: Entity, invA: real, invB: real, n: Vec2)
    requires invA + invB > 0.0 && LenSq(n) == 1.0
    ensures Dot(Sub(Add(VelocityOf(b), Mul(Mul(n, ImpulseScale(a, b, invA, invB, n)), invB)),
      Add(VelocityOf(a), Neg(Mul(Mul(n, ImpulseScale(a, b, invA, invB, n)), invA)))), n) ==
      -Restitution(a, b) * Dot(Sub(VelocityOf(b), VelocityOf(a)), n)
  {
    RestitutionFromScale(VelocityOf(a), VelocityOf(b), n, Restitution(a, b), ImpulseScale(a, b, invA, invB, n), invA, invB);
  }

  /** RestitutionCore for the impulse magnitude given as the quotient itself. */
  lemma RestitutionFromScale(va: Vec2, vb: Vec2, n: Vec2, e: real, j: real, invA: real, invB: real)
    requires LenSq(n) == 1.0 && invA + invB > 0.0
    requires j == -(1.0 + e) * Dot(Sub(vb, va), n) / (invA + invB)
    ensures Dot(Sub(Add(vb, Mul(Mul(n, j), invB)), Add(va, Neg(Mul(Mul(n, j), invA)))), n) == -e * Dot(Sub(vb, va), n)
  {
    DivTimes(-(1.0 + e) * Dot(Sub(vb, va), n), invA + invB);
    RestitutionCore(va, vb, n, e, j, invA, invB);
  }

  /** The relative velocity after Kick, in terms of the impulse. */
  lemma KickRelative(a: Entity, b: Entity, invA: real, invB: real, n: Vec2)
    requires a.velocity.Some? && b.velocity.Some? && invA > 0.0 && invB > 0.0
    ensures Sub(VelocityOf(Kick(a, b, invA, invB, n).b), VelocityOf(Kick(a, b, invA, invB, n).a)) ==
      Sub(Add(VelocityOf(b), Mul(Mul(n, ImpulseScale(a, b, invA, invB, n)), invB)),
        Add(VelocityOf(a), Neg(Mul(Mul(n, ImpulseScale(a, b, invA, invB, n)), invA))))
  {
    KickDeltas(a, b, invA, invB, n);
  }

  /** The restitution law on velocities alone, for an impulse j with
      j * (invA + invB) == -(1 + e) * vn. */
  lemma RestitutionCore(va: Vec2, vb: Vec2, n: Vec2, e: real, j: real, invA: real, invB: real)
    requires LenSq(n) == 1.0
    requires j * (invA + invB) == -(1.0 + e) * Dot(Sub(vb, va), n)
    ensures Dot(Sub(Add(vb, Mul(Mul(n, j), invB)), Add(va, Neg(Mul(Mul(n, j), invA)))), n) == -e * Dot(Sub(vb, va), n)
  {
    var rel := Sub(vb, va);
    var vn := Dot(rel, n);
    var i := Mul(n, j);
    var change := Vec2(n.x * j * invB + n.x * j * invA, n.y * j * invB + n.y * j * invA);
    RelativeAfter(va, vb, i, invA, invB);
    assert Sub(Add(vb, Mul(i, invB)), Add(va, Neg(Mul(i, invA)))) == Add(rel, change);
    BounceChange(rel, n, j, invA, invB);
    RestitutionArithmetic(e, vn);
  }

  /** vn - (1 + e) * vn == -e * vn. */
  lemma RestitutionArithmetic(e: real, vn: real)
    ensures vn + -(1.0 + e) * vn == -e * vn
  {
  }

  /** Taking i * invA off va and adding i * invB to vb adds i * (invA + invB) to the
      relative velocity, written out per component. */
  lemma RelativeAfter(va: Vec2, vb: Vec2, i: Vec2, invA: real, invB: real)
    ensures Sub(Add(vb, Mul(i, invB)), Add(va, Neg(Mul(i, invA)))) ==
      Add(Sub(vb, va), Vec2(i.x * invB + i.x * invA, i.y * invB + i.y * invA))
  {
  }

  /** The relative velocity after the impulse: rel + n * j * (invA + invB). */
  lemma BounceChange(rel: Vec2, n: Vec2, j: real, invA: real, invB: real)
    requires LenSq(n) == 1.0
    ensures Dot(Add(rel, Vec2(n.x * j * invB + n.x * j * invA, n.y * j * invB + n.y * j * invA)), n) ==
      Dot(rel, n) + j * (invA + invB)
  {
    assert n.x * j * invB * n.x + n.x * j * invA * n.x == j * (invA + invB) * (n.x * n.x);
    assert n.y * j * invB * n.y + n.y * j * invA * n.y == j * (invA + invB) * (n.y * n.y);
  }

  // ---------------------------------------------------------------------------
  // Properties of the dispatch
  // ---------------------------------------------------------------------------

  /** Whatever the shape kinds, a translation found by the dispatch points from A
      towards B (from the centre or vertex mean of A to that of B), given non-negative
      radii and, for two circles, centres at least 1e-6 apart. */
  lemma ContactPointsFromAToB(ta: Transform, ca: Collider, tb: Transform, cb: Collider, m: MathLib)
    requires ValidMath(m)
    requires ca.radius >= 0.0 && cb.radius >= 0.0
    ensures var o := Narrowphase(ta, ca, tb, cb, m);
      o.Some? && (ca.kind == Circle && cb.kind == Circle ==>
        m.sqrt(LenSq(Sub(Centre(tb, cb), Centre(ta, ca)))) >= COINCIDENT_EPS) ==>
      Dot(o.value, Sub(BodyCentre(tb, cb, m), BodyCentre(ta, ca, m))) >= 0.0
  {
    if IsPolygon(ca.kind) && IsPolygon(cb.kind) {
      PolygonsPointFromAToB(ta, ca, tb, cb, m);
    } else if ca.kind == Circle && cb.kind == Circle {
      CirclesPointFromAToB(ta, ca, tb, cb, m);
    } else if ca.kind == Circle {
      CircleFirstPointsFromAToB(ta, ca, tb, cb, m);
    } else {
      CircleSecondPointsFromAToB(ta, ca, tb, cb, m);
    }
  }

  lemma PolygonsPointFromAToB(ta: Transform, ca: Collider, tb: Transform, cb: Collider, m: MathLib)
    requires ValidMath(m) && IsPolygon(ca.kind) && IsPolygon(cb.kind)
    ensures var o := Narrowphase(ta, ca, tb, cb, m);
      o.Some? ==> Dot(o.value, Sub(BodyCentre(tb, cb, m), BodyCentre(ta, ca, m))) >= 0.0
  {
    var va, vb := GetVertices(ta, ca, m), GetVertices(tb, cb, m);
    assert Narrowphase(ta, ca, tb, cb, m) == PolyPoly(va, vb, m);
    PolyPolyTranslation(va, vb, m);
  }

  lemma CirclesPointFromAToB(ta: Transform, ca: Collider, tb: Transform, cb: Collider, m: MathLib)
    requires ValidMath(m) && ca.kind == Circle && cb.kind == Circle
    requires ca.radius >= 0.0 && cb.radius >= 0.0
    ensures var o := Narrowphase(ta, ca, tb, cb, m);
      o.Some? && m.sqrt(LenSq(Sub(Centre(tb, cb), Centre(ta, ca)))) >= COINCIDENT_EPS ==>
      Dot(o.value, Sub(BodyCentre(tb, cb, m), BodyCentre(ta, ca, m))) >= 0.0
  {
    CircleCircleTranslation(Centre(ta, ca), ca.radius, Centre(tb, cb), cb.radius, m);
  }

  lemma CircleFirstPointsFromAToB(ta: Transform, ca: Collider, tb: Transform, cb: Collider, m: MathLib)
    requires ValidMath(m) && ca.kind == Circle && IsPolygon(cb.kind) && ca.radius >= 0.0
    ensures var o := Narrowphase(ta, ca, tb, cb, m);
      o.Some? ==> Dot(o.value, Sub(BodyCentre(tb, cb, m), BodyCentre(ta, ca, m))) >= 0.0
  {
    var pa, vb := Centre(ta, ca), GetVertices(tb, cb, m);
    var o := CirclePoly(pa, ca.radius, vb, m);
    assert Narrowphase(ta, ca, tb, cb, m) == Flipped(o);
    if o.None? {
      return;
    }
    CirclePolyTranslation(pa, ca.radius, vb, m);
    var d := Sub(pa, Centroid(vb));
    FlipKeepsDirection(o.value, d);
    assert BodyCentre(ta, ca, m) == pa && BodyCentre(tb, cb, m) == Centroid(vb);
    assert Sub(Centroid(vb), pa) == Vec2(-d.x, -d.y);
  }

  lemma CircleSecondPointsFromAToB(ta: Transform, ca: Collider, tb: Transform, cb: Collider, m: MathLib)
    requires ValidMath(m) && IsPolygon(ca.kind) && cb.kind == Circle && cb.radius >= 0.0
    ensures var o := Narrowphase(ta, ca, tb, cb, m);
      o.Some? ==> Dot(o.value, Sub(BodyCentre(tb, cb, m), BodyCentre(ta, ca, m))) >= 0.0
  {
    var pb, va := Centre(tb, cb), GetVertices(ta, ca, m);
    assert Narrowphase(ta, ca, tb, cb, m) == CirclePoly(pb, cb.radius, va, m);
    CirclePolyTranslation(pb, cb.radius, va, m);
  }

  /** Dot(v, d) >= 0 ==> Dot(-v, -d) >= 0, with -d written as the reversed difference. */
  lemma FlipKeepsDirection(v: Vec2, d: Vec2)
    requires Dot(v, d) >= 0.0
    ensures Dot(Mul(v, -1.0), Vec2(-d.x, -d.y)) >= 0.0
  {
  }

  /** For two circles with non-negative radii the axis-aligned early reject never drops
      a pair the circle test would report. */
  lemma CircleRejectIsSound(ta: Transform, ca: Collider, tb: Transform, cb: Collider, m: MathLib)
    requires ValidMath(m)
    requires ca.kind == Circle && cb.kind == Circle && ca.radius >= 0.0 && cb.radius >= 0.0
    requires ca.layer == cb.layer && ca.active && cb.active
    requires Rejected(ta, ca, tb, cb)
    ensures Narrowphase(ta, ca, tb, cb, m).None?
  {
    var pa, pb := Centre(ta, ca), Centre(tb, cb);
    assert Narrowphase(ta, ca, tb, cb, m) == CircleCircle(pa, ca.radius, pb, cb.radius, m);
    assert Abs(pa.x - pb.x) > ca.radius + cb.radius || Abs(pa.y - pb.y) > ca.radius + cb.radius;
    RejectedCirclesApart(pa, pb, ca.radius + cb.radius);
  }

  /** For two unrotated rectangles the axis-aligned early reject never drops a pair the
      polygon test would report: a rejected pair is separated on an edge normal of A.
      A's sides must be longer than 1e-8 so that those normals are tried. */
  lemma RectRejectIsSound(ta: Transform, ca: Collider, tb: Transform, cb: Collider, m: MathLib)
    requires ValidMath(m)
    requires ca.kind == Rect && cb.kind == Rect && ta.angle == 0.0 && tb.angle == 0.0
    requires ca.width > NORMALIZE_EPS && ca.height > NORMALIZE_EPS && cb.width >= 0.0 && cb.height >= 0.0
    requires ca.layer == cb.layer && ca.active && cb.active
    requires Rejected(ta, ca, tb, cb)
    ensures Narrowphase(ta, ca, tb, cb, m).None?
  {
    var va, vb := GetVertices(ta, ca, m), GetVertices(tb, cb, m);
    var pa, pb := Centre(ta, ca), Centre(tb, cb);
    var hwa, hha, hwb, hhb := ca.width * 0.5, ca.height * 0.5, cb.width * 0.5, cb.height * 0.5;
    assert va == Corners(pa, hwa, hha) && vb == Corners(pb, hwb, hhb);
    assert Narrowphase(ta, ca, tb, cb, m) == PolyPoly(va, vb, m);
    RectEdgeNormals(ta, ca, m);
    var na := EdgeNormals(va, m);
    if Abs(pa.x - pb.x) > hwa + hwb {
      CornersApartOnX(pa, hwa, hha, pb, hwb, hhb);
      assert SeparatingAxis(Polygons(va, vb), na, 1);
    } else {
      CornersApartOnY(pa, hwa, hha, pb, hwb, hhb);
      assert SeparatingAxis(Polygons(va, vb), na, 0);
    }
    PolyPolySeparation(va, vb, m);
  }

  /** The corners of an unrotated rectangle about o, in getVertices' order. */
  function Corners(o: Vec2, hw: real, hh: real): seq<Vec2> {
    [Vec2(o.x - hw, o.y - hh), Vec2(o.x + hw, o.y - hh), Vec2(o.x + hw, o.y + hh), Vec2(o.x - hw, o.y + hh)]
  }

  /** Two unrotated rectangles whose centres are farther apart on x than their summed
      half widths leave a gap on the axis (-1, 0). */
  lemma CornersApartOnX(pa: Vec2, hwa: real, hha: real, pb: Vec2, hwb: real, hhb: real)
    requires hwa >= 0.0 && hwb >= 0.0 && Abs(pa.x - pb.x) > hwa + hwb
    ensures Gap(ExtentsOn(Polygons(Corners(pa, hwa, hha), Corners(pb, hwb, hhb)), Vec2(-1.0, 0.0)))
  {
    var axis, ca, cb := Vec2(-1.0, 0.0), Corners(pa, hwa, hha), Corners(pb, hwb, hhb);
    assert forall i :: 0 <= i < 4 ==> Dot(ca[i], axis) == -ca[i].x && Dot(cb[i], axis) == -cb[i].x;
    RectSpan(ca, axis, -(pa.x + hwa), -(pa.x - hwa));
    RectSpan(cb, axis, -(pb.x + hwb), -(pb.x - hwb));
    var e := ExtentsOn(Polygons(ca, cb), axis);
    if pa.x > pb.x {
      assert e.hi1 < e.lo2;
    } else {
      assert e.hi2 < e.lo1;
    }
  }

  /** Two unrotated rectangles whose centres are farther apart on y than their summed
      half heights leave a gap on the axis (0, 1). */
  lemma CornersApartOnY(pa: Vec2, hwa: real, hha: real, pb: Vec2, hwb: real, hhb: real)
    requires hha >= 0.0 && hhb >= 0.0 && Abs(pa.y - pb.y) > hha + hhb
    ensures Gap(ExtentsOn(Polygons(Corners(pa, hwa, hha), Corners(pb, hwb, hhb)), Vec2(0.0, 1.0)))
  {
    var axis, ca, cb := Vec2(0.0, 1.0), Corners(pa, hwa, hha), Corners(pb, hwb, hhb);
    assert forall i :: 0 <= i < 4 ==> Dot(ca[i], axis) == ca[i].y && Dot(cb[i], axis) == cb[i].y;
    RectSpan(ca, axis, pa.y - hha, pa.y + hha);
    RectSpan(cb, axis, pb.y - hhb, pb.y + hhb);
    var e := ExtentsOn(Polygons(ca, cb), axis);
    if pa.y > pb.y {
      assert e.hi2 < e.lo1;
    } else {
      assert e.hi1 < e.lo2;
    }
  }

  /** The first two edge normals of an unrotated rectangle with sides longer than 1e-8:
      the bottom edge gives (0, 1) and the right edge (-1, 0). */
  lemma RectEdgeNormals(t: Transform, c: Collider, m: MathLib)
    requires ValidMath(m) && c.kind == Rect && t.angle == 0.0
    requires c.width > NORMALIZE_EPS && c.height > NORMALIZE_EPS
    ensures var na := EdgeNormals(GetVertices(t, c, m), m);
      na[0] == Vec2(0.0, 1.0) && na[1] == Vec2(-1.0, 0.0)
  {
    var vs := GetVertices(t, c, m);
    var e0 := Perp(Sub(vs[1], vs[0]));
    var e1 := Perp(Sub(vs[2], vs[1]));
    assert e0 == Vec2(0.0, c.width) && e1 == Vec2(-c.height, 0.0);
    NormalizeAxis(e0, c.width, m);
    NormalizeAxis(e1, c.height, m);
    assert EdgeNormals(vs, m)[0] == Normalize(e0, m) && EdgeNormals(vs, m)[1] == Normalize(e1, m);
  }

  /** A vector along one coordinate axis, of length l > 1e-8, normalizes to the unit
      vector along it. */
  lemma NormalizeAxis(e: Vec2, l: real, m: MathLib)
    requires ValidMath(m) && l > NORMALIZE_EPS
    requires e == Vec2(0.0, l) || e == Vec2(-l, 0.0)
    ensures e == Vec2(0.0, l) ==> Normalize(e, m) == Vec2(0.0, 1.0)
    ensures e == Vec2(-l, 0.0) ==> Normalize(e, m) == Vec2(-1.0, 0.0)
  {
    RootOfSquare(m, l);
    assert LenSq(e) == l * l;
    assert l * (1.0 / l) == 1.0;
    assert Normalize(e, m) == Mul(e, 1.0 / l);
  }

  /** Vertices whose projections onto `axis` all lie in [lo, hi] give a projected
      interval inside [lo, hi]. */
  lemma RectSpan(vs: seq<Vec2>, axis: Vec2, lo: real, hi: real)
    requires |vs| >= 1
    requires forall i :: 0 <= i < |vs| ==> lo <= Dot(vs[i], axis) <= hi
    ensures lo <= ProjMin(vs, axis) && ProjMax(vs, axis) <= hi
  {
  }

  /** Centres farther apart than s on one axis are at least s apart. */
  lemma RejectedCirclesApart(pa: Vec2, pb: Vec2, s: real)
    requires s >= 0.0
    requires Abs(pa.x - pb.x) > s || Abs(pa.y - pb.y) > s
    ensures LenSq(Sub(pb, pa)) >= s * s
  {
    var d := Sub(pb, pa);
    if Abs(pa.x - pb.x) > s {
      AbsSquare(pa.x - pb.x, s);
      assert d.x * d.x == (pa.x - pb.x) * (pa.x - pb.x);
      assert d.y * d.y >= 0.0;
    } else {
      AbsSquare(pa.y - pb.y, s);
      assert d.y * d.y == (pa.y - pb.y) * (pa.y - pb.y);
      assert d.x * d.x >= 0.0;
    }
  }

  /** |v| > s >= 0 ==> v * v > s * s. */
  lemma AbsSquare(v: real, s: real)
    requires s >= 0.0 && Abs(v) > s
    ensures v * v > s * s
  {
    var w := Abs(v);
    assert v * v == w * w;
    PositiveProduct(w - s, w + s);
    assert (w - s) * (w + s) == w * w - s * s;
  }
}
