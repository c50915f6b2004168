/** The per-tick systems of the world (engine/ecs_world.cpp) as functions of the entity
    store: MoveSystem and GravitySystem for one entity, and the collision pass as the
    replay of the pairs it hands to resolvePair, in order. The methods of the world are
    proved against these. */
module Systems {
  import opened Wrappers
  import opened Components
  import opened Geometry
  import opened Hashing
  import opened Broadphase
  import opened Resolver

  // ---------------------------------------------------------------------------
  // Move and gravity
  // ---------------------------------------------------------------------------

  /** A transform with an unfrozen velocity. */
  predicate Moves(e: Entity) {
    e.transform.Some? && e.velocity.Some? && !e.velocity.value.freeze
  }

  /** A working gravity on an unfrozen velocity. */
  predicate Falls(e: Entity) {
    e.velocity.Some? && e.gravity.Some? && e.gravity.value.work && !e.velocity.value.freeze
  }

  /** MoveSystem on one entity: with a transform and an unfrozen velocity, the position
      advances by velocity * dt; nothing else changes. */
  function Moved(e: Entity, dt: real): (r: Entity)
    ensures r == e.(transform := r.transform)
    ensures r.transform.Some? == e.transform.Some?
    ensures !Moves(e) ==> r == e
    ensures Moves(e) ==> Position(r) == Add(Position(e), Mul(VelocityOf(e), dt))
  {
    if Moves(e) then
      var t, v := e.transform.value, e.velocity.value;
      e.(transform := Some(t.(x := t.x + v.vx * dt, y := t.y + v.vy * dt)))
    else e
  }

  /** GravitySystem on one entity: with a working gravity and an unfrozen velocity, vy
      grows by a * dt; nothing else changes. */
  function Gravitated(e: Entity, dt: real): (r: Entity)
    ensures r == e.(velocity := r.velocity)
    ensures r.velocity.Some? == e.velocity.Some?
    ensures r.velocity.Some? ==> r.velocity.value.freeze == e.velocity.value.freeze
    ensures !Falls(e) ==> r == e
    ensures Falls(e) ==> VelocityOf(r) == Vec2(VelocityOf(e).x, VelocityOf(e).y + e.gravity.value.a * dt)
  {
    if Falls(e) then
      var v := e.velocity.value;
      e.(velocity := Some(v.(vy := v.vy + e.gravity.value.a * dt)))
    else e
  }

  /** Two moves in a row are one move over the summed time: moving leaves the velocity
      alone, and the displacement is linear in dt. */
  lemma MoveComposes(e: Entity, dt1: real, dt2: real)
    ensures Moved(Moved(e, dt1), dt2) == Moved(e, dt1 + dt2)
  {
    if Moves(e) {
      var v := e.velocity.value;
      assert v.vx * dt1 + v.vx * dt2 == v.vx * (dt1 + dt2);
      assert v.vy * dt1 + v.vy * dt2 == v.vy * (dt1 + dt2);
      assert Moved(Moved(e, dt1), dt2).transform.value == Moved(e, dt1 + dt2).transform.value;
    }
  }

  /** Two gravity steps in a row are one step over the summed time. */
  lemma GravityComposes(e: Entity, dt1: real, dt2: real)
    ensures Gravitated(Gravitated(e, dt1), dt2) == Gravitated(e, dt1 + dt2)
  {
    if Falls(e) {
      var a := e.gravity.value.a;
      assert a * dt1 + a * dt2 == a * (dt1 + dt2);
      assert Gravitated(Gravitated(e, dt1), dt2).velocity.value == Gravitated(e, dt1 + dt2).velocity.value;
    }
  }

  /** The two systems touch different components, so their order does not matter to
      either component; MoveSystem runs first, so a tick moves by the velocity from
      before gravity. */
  lemma MoveThenGravity(e: Entity, dt: real)
    ensures var r := Gravitated(Moved(e, dt), dt);
      r.transform == Moved(e, dt).transform && r.velocity == Gravitated(e, dt).velocity
  {
    if Falls(e) {
      assert Gravitated(Moved(e, dt), dt).velocity.value == Gravitated(e, dt).velocity.value;
    }
  }

  // ---------------------------------------------------------------------------
  // The collision pass as a replay
  // ---------------------------------------------------------------------------

  /** The entity store and the collision events raised so far. */
  datatype State = State(ents: map<Id, Entity>, events: seq<CollisionEvent>)

  /** One call of resolvePair: entity a as the first side, b as the second. */
  datatype Link = Link(a: Id, b: Id)

  /** Both ends of a pair key are colliders of the store. */
  predicate Live(ents: map<Id, Entity>, p: PairKey) {
    p.a in ents && p.b in ents && Collidable(ents[p.a]) && Collidable(ents[p.b])
  }

  /** An entity changed only in its transform and velocity, keeping both components. */
  predicate SameBody(x: Entity, y: Entity) {
    x == y.(transform := x.transform, velocity := x.velocity) && x.transform.Some? == y.transform.Some?
  }

  /** The event list of a resolve. */
  function EventOf(ev: Option<CollisionEvent>): seq<CollisionEvent> {
    if ev.Some? then [ev.value] else []
  }

  /** resolvePair applied to the store, for two distinct colliders. */
  function Step(s: State, l: Link, m: MathLib): (r: State)
    requires ValidMath(m)
    ensures r.ents.Keys == s.ents.Keys
  {
    if l.a in s.ents && l.b in s.ents && l.a != l.b && Collidable(s.ents[l.a]) && Collidable(s.ents[l.b]) then
      var res := ResolvePair(l.a, s.ents[l.a], l.b, s.ents[l.b], m);
      State(s.ents[l.a := res.a][l.b := res.b], s.events + EventOf(res.event))
    else s
  }

  /** A pair with a NaN centre, rejected early or found apart leaves the store as it is. */
  lemma StepQuiet(s: State, l: Link, m: MathLib)
    requires ValidMath(m)
    requires l.a in s.ents && l.b in s.ents && l.a != l.b
    requires Collidable(s.ents[l.a]) && Collidable(s.ents[l.b])
    requires var ea, eb := s.ents[l.a], s.ents[l.b];
      var ta, ca, tb, cb := ea.transform.value, ea.collider.value, eb.transform.value, eb.collider.value;
      ea.nanCentre || eb.nanCentre || Rejected(ta, ca, tb, cb) || Narrowphase(ta, ca, tb, cb, m).None?
    ensures Step(s, l, m) == s
  {
    var ea, eb := s.ents[l.a], s.ents[l.b];
    assert s.ents[l.a := ea][l.b := eb] == s.ents;
  }

  /** A pair in contact with translation mtv adds its event, and a pair without a
      trigger takes the response. */
  lemma StepContact(s: State, l: Link, mtv: Vec2, m: MathLib)
    requires ValidMath(m)
    requires l.a in s.ents && l.b in s.ents && l.a != l.b
    requires Collidable(s.ents[l.a]) && Collidable(s.ents[l.b])
    requires var ea, eb := s.ents[l.a], s.ents[l.b];
      var ta, ca, tb, cb := ea.transform.value, ea.collider.value, eb.transform.value, eb.collider.value;
      !ea.nanCentre && !eb.nanCentre && !Rejected(ta, ca, tb, cb) && Narrowphase(ta, ca, tb, cb, m) == Some(mtv)
    ensures var ea, eb := s.ents[l.a], s.ents[l.b];
      var sensor := ea.collider.value.isTrigger || eb.collider.value.isTrigger;
      var p := if sensor then Pair(ea, eb) else Respond(ea, eb, mtv, m);
      Step(s, l, m) == State(s.ents[l.a := p.a][l.b := p.b], s.events + [CollisionEvent(l.a, l.b, sensor)])
  {
  }

  /** The store after resolving the pairs of `log` in order. */
  function Replay(s: State, log: seq<Link>, m: MathLib): (r: State)
    requires ValidMath(m)
    ensures r.ents.Keys == s.ents.Keys
    ensures s.events <= r.events
    decreases |log|
  {
    if log == [] then s
    else
      var prev := Replay(s, log[..|log| - 1], m);
      var r := Step(prev, log[|log| - 1], m);
      r
  }

  /** resolvePair changes a body's transform and velocity only, and keeps both. */
  lemma StepSameBody(s: State, l: Link, m: MathLib)
    requires ValidMath(m)
    ensures forall id :: id in s.ents ==> SameBody(Step(s, l, m).ents[id], s.ents[id])
  {
    if l.a in s.ents && l.b in s.ents && l.a != l.b && Collidable(s.ents[l.a]) && Collidable(s.ents[l.b]) {
      var res := ResolvePair(l.a, s.ents[l.a], l.b, s.ents[l.b], m);
      assert SameBody(res.a, s.ents[l.a]) && SameBody(res.b, s.ents[l.b]);
      assert Step(s, l, m).ents == s.ents[l.a := res.a][l.b := res.b];
    }
  }

  /** Over a whole log, only transforms and velocities change. */
  lemma {:induction false} ReplaySameBody(s: State, log: seq<Link>, m: MathLib)
    requires ValidMath(m)
    ensures forall id :: id in s.ents ==> SameBody(Replay(s, log, m).ents[id], s.ents[id])
    decreases |log|
  {
    if log != [] {
      var prev := Replay(s, log[..|log| - 1], m);
      ReplaySameBody(s, log[..|log| - 1], m);
      StepSameBody(prev, log[|log| - 1], m);
    }
  }

  /** The pair key of a link, none for an entity paired with itself. */
  function KeyOf(l: Link): Option<PairKey> {
    MakePair(l.a, l.b)
  }

  /** The keys of the links of a log. */
  function Keys(log: seq<Link>): (ks: set<PairKey>)
    decreases |log|
  {
    if log == [] then {}
    else
      var l := log[|log| - 1];
      Keys(log[..|log| - 1]) + (if KeyOf(l).Some? then {KeyOf(l).value} else {})
  }

  /** Every link of the log was handed over just after its key went into the tested set:
      a key of two distinct ids, not tested before the pass and not earlier in the log. */
  predicate Fresh(log: seq<Link>, tested0: set<PairKey>)
    decreases |log|
  {
    log == [] ||
    (var l := log[|log| - 1];
     var init := log[..|log| - 1];
     Fresh(init, tested0) && KeyOf(l).Some? && KeyOf(l).value !in tested0 + Keys(init))
  }

  /** A key of the log is the key of one of its links. */
  lemma {:induction false} KeysMembers(log: seq<Link>, p: PairKey)
    ensures p in Keys(log) <==> exists i :: 0 <= i < |log| && KeyOf(log[i]) == Some(p)
    decreases |log|
  {
    if log != [] {
      var init := log[..|log| - 1];
      KeysMembers(init, p);
      if p in Keys(init) {
        var i :| 0 <= i < |init| && KeyOf(init[i]) == Some(p);
        assert log[i] == init[i];
      }
      if exists i :: 0 <= i < |log| && KeyOf(log[i]) == Some(p) {
        var i :| 0 <= i < |log| && KeyOf(log[i]) == Some(p);
        if i < |init| {
          assert init[i] == log[i];
        }
      }
    }
  }

  /** A fresh log resolves each unordered pair of distinct entities at most once, and
      never one tested before the pass. */
  lemma {:induction false} FreshNoRepeats(log: seq<Link>, tested0: set<PairKey>)
    requires Fresh(log, tested0)
    ensures forall i :: 0 <= i < |log| ==> log[i].a != log[i].b && KeyOf(log[i]).value !in tested0
    ensures forall i, j :: 0 <= i < j < |log| ==> KeyOf(log[i]) != KeyOf(log[j])
    decreases |log|
  {
    if log != [] {
      var init := log[..|log| - 1];
      var l := log[|log| - 1];
      FreshNoRepeats(init, tested0);
      forall i, j | 0 <= i < j < |log|
        ensures KeyOf(log[i]) != KeyOf(log[j])
      {
        if j < |init| {
          assert log[i] == init[i] && log[j] == init[j];
        } else {
          assert log[i] == init[i];
          KeysMembers(init, KeyOf(init[i]).value);
        }
      }
      forall i | 0 <= i < |log|
        ensures log[i].a != log[i].b && KeyOf(log[i]).value !in tested0
      {
        if i < |init| {
          assert log[i] == init[i];
        }
      }
    }
  }

  /** The events of evs from index `from` on are each for a link of the log, A first. */
  predicate EventsFrom(evs: seq<CollisionEvent>, from: nat, log: seq<Link>) {
    forall k :: from <= k < |evs| ==> Link(evs[k].a, evs[k].b) in log
  }

  /** The events raised by a replay are for links of the log, A first. */
  lemma {:induction false} EventsFromLinks(s: State, log: seq<Link>, m: MathLib)
    requires ValidMath(m)
    ensures EventsFrom(Replay(s, log, m).events, |s.events|, log)
    decreases |log|
  {
    if log != [] {
      var init := log[..|log| - 1];
      var l := log[|log| - 1];
      EventsFromLinks(s, init, m);
      var prev := Replay(s, init, m);
      var r := Replay(s, log, m);
      assert r == Step(prev, l, m);
      forall k | |s.events| <= k < |r.events|
        ensures Link(r.events[k].a, r.events[k].b) in log
      {
        if k < |prev.events| {
          assert r.events[k] == prev.events[k];
          assert Link(prev.events[k].a, prev.events[k].b) in init;
          assert init <= log;
        } else {
          assert r.events[k].a == l.a && r.events[k].b == l.b;
        }
      }
    }
  }

  /** No two events of evs from index `from` on are for the same unordered pair. */
  predicate DistinctPairs(evs: seq<CollisionEvent>, from: nat) {
    forall k1, k2 :: from <= k1 < k2 < |evs| ==> MakePair(evs[k1].a, evs[k1].b) != MakePair(evs[k2].a, evs[k2].b)
  }

  /** Over a fresh log, no two events of the pass are for the same unordered pair: each
      pair raises at most one event per tick. */
  lemma {:induction false} OneEventPerPair(s: State, log: seq<Link>, tested0: set<PairKey>, m: MathLib)
    requires ValidMath(m) && Fresh(log, tested0)
    ensures DistinctPairs(Replay(s, log, m).events, |s.events|)
    decreases |log|
  {
    if log != [] {
      var init := log[..|log| - 1];
      var l := log[|log| - 1];
      OneEventPerPair(s, init, tested0, m);
      EventsFromLinks(s, init, m);
      var prev := Replay(s, init, m);
      var r := Replay(s, log, m);
      assert r == Step(prev, l, m);
      forall k1, k2 | |s.events| <= k1 < k2 < |r.events|
        ensures MakePair(r.events[k1].a, r.events[k1].b) != MakePair(r.events[k2].a, r.events[k2].b)
      {
        if k2 >= |prev.events| {
          assert r.events[k1] == prev.events[k1];
          var l1 := Link(prev.events[k1].a, prev.events[k1].b);
          assert l1 in init;
          var i :| 0 <= i < |init| && init[i] == l1;
          FreshNoRepeats(init, tested0);
          KeysMembers(init, KeyOf(l1).value);
          assert KeyOf(l1).value in Keys(init);
          assert KeyOf(l).value !in Keys(init);
          assert r.events[k2].a == l.a && r.events[k2].b == l.b;
          assert MakePair(r.events[k2].a, r.events[k2].b) == KeyOf(l);
          assert MakePair(r.events[k1].a, r.events[k1].b) == KeyOf(l1);
        } else {
          assert r.events[k1] == prev.events[k1] && r.events[k2] == prev.events[k2];
          assert DistinctPairs(prev.events, |s.events|);
        }
      }
    }
  }

  /** A store whose colliders are all triggers is never moved by the collision pass. */
  lemma {:induction false} TriggersNeverMove(s: State, log: seq<Link>, m: MathLib)
    requires ValidMath(m)
    requires forall id :: id in s.ents && s.ents[id].collider.Some? ==> s.ents[id].collider.value.isTrigger
    ensures Replay(s, log, m).ents == s.ents
    decreases |log|
  {
    if log != [] {
      TriggersNeverMove(s, log[..|log| - 1], m);
    }
  }

  /** An entity with inverse mass 0 (static without E_Mass, or an E_Mass of inverse mass
      0) is never moved or slowed by the collision pass. */
  lemma {:induction false} StaticBodiesStay(s: State, log: seq<Link>, m: MathLib, id: Id)
    requires ValidMath(m)
    requires id in s.ents && s.ents[id].collider.Some? && InvMass(s.ents[id]) == 0.0
    ensures Replay(s, log, m).ents[id] == s.ents[id]
    decreases |log|
  {
    if log != [] {
      StaticBodiesStay(s, log[..|log| - 1], m, id);
    }
  }
}
