/** ECSWorld (engine/ecs_world.h, engine/ecs_world.cpp): the entity store, the
    broad-phase scratch state (grid_, bigBodies_, testedPairs_) and the systems one
    update runs, in order: BuildBroadphaseGrid (PreUpdate), MoveSystem, GravitySystem and
    CollisionSystem (OnUpdate), ClearCollisionEvents (PostUpdate). Each system is a
    method proved against the functions of the Broadphase, Resolver and Systems
    modules. */
module World {
  import opened Wrappers
  import opened Components
  import opened Geometry
  import opened Hashing
  import opened Broadphase
  import opened Sat
  import opened Resolver
  import opened Systems

  /** The pair (a, b) is an entity with itself or its key is in the tested set. */
  predicate Marked(tested: set<PairKey>, a: Id, b: Id) {
    MakePair(a, b).Some? ==> MakePair(a, b).value in tested
  }

  /** An entity of the collider query whose collider is active. */
  predicate ActiveCollider(ents: map<Id, Entity>, id: Id) {
    id in ents && Collidable(ents[id]) && ents[id].collider.value.active
  }

  /** An entity of the collider query: it has a transform and a collider. */
  predicate IsCollider(ents: map<Id, Entity>, id: Id) {
    id in ents && Collidable(ents[id])
  }

  /** Two stores with the same ids and the same colliders. */
  predicate SameColliders(ents: map<Id, Entity>, ents0: map<Id, Entity>) {
    ents.Keys == ents0.Keys && forall id :: id in ents0 ==> ents[id].collider == ents0[id].collider && (ents[id].transform.Some? <==> ents0[id].transform.Some?)
  }

  /** Every pair of an active big body and another collider has been marked. */
  predicate BigPairsMarked(tested: set<PairKey>, ents: map<Id, Entity>, big: seq<Id>, order: seq<Id>) {
    forall i, j :: 0 <= i < |big| && 0 <= j < |order| && ActiveCollider(ents, big[i]) && IsCollider(ents, order[j]) ==>
      Marked(tested, big[i], order[j])
  }

  /** Every id listed in cell `key` has been marked against a. */
  predicate CellMarked(tested: set<PairKey>, g: Grid, a: Id, key: int) {
    forall b :: Has(g, key, b) ==> Marked(tested, a, b)
  }

  /** Every cell (x, y0) .. (x, y1) is marked against a. */
  predicate ColumnMarked(tested: set<PairKey>, g: Grid, a: Id, x: int, y0: int, y1: int) {
    forall y :: y0 <= y <= y1 ==> CellMarked(tested, g, a, HashCell(x, y))
  }

  /** Every cell of the span is marked against a. */
  predicate SpanMarked(tested: set<PairKey>, g: Grid, a: Id, s: Span) {
    forall x :: s.minX <= x <= s.maxX ==> ColumnMarked(tested, g, a, x, s.minY, s.maxY)
  }

  /** Once a span is marked, so is every pair of a with an id listed in one of its
      cells. */
  lemma SpanMarkedHas(tested: set<PairKey>, g: Grid, a: Id, s: Span, x: int, y: int, b: Id)
    requires SpanMarked(tested, g, a, s)
    requires s.minX <= x <= s.maxX && s.minY <= y <= s.maxY && Has(g, HashCell(x, y), b)
    ensures Marked(tested, a, b)
  {
    assert ColumnMarked(tested, g, a, x, s.minY, s.maxY);
    assert CellMarked(tested, g, a, HashCell(x, y));
  }

  lemma SpanMarkedGrows(t1: set<PairKey>, t2: set<PairKey>, g: Grid, a: Id, s: Span)
    requires t1 <= t2 && SpanMarked(t1, g, a, s)
    ensures SpanMarked(t2, g, a, s)
  {
    forall x | s.minX <= x <= s.maxX
      ensures ColumnMarked(t2, g, a, x, s.minY, s.maxY)
    {
      ColumnMarkedGrows(t1, t2, g, a, x, s.minY, s.maxY);
    }
  }

  /** A marked span x0 .. x - 1 and a marked column x make a marked span x0 .. x. */
  lemma SpanMarkedExtend(t: set<PairKey>, g: Grid, a: Id, x0: int, x: int, y0: int, y1: int)
    requires SpanMarked(t, g, a, Span(x0, x - 1, y0, y1)) && ColumnMarked(t, g, a, x, y0, y1)
    ensures SpanMarked(t, g, a, Span(x0, x, y0, y1))
  {
  }

  /** A marked column y0 .. y - 1 and a marked cell (x, y) make a marked column
      y0 .. y. */
  lemma ColumnMarkedExtend(t: set<PairKey>, g: Grid, a: Id, x: int, y0: int, y: int)
    requires ColumnMarked(t, g, a, x, y0, y - 1) && CellMarked(t, g, a, HashCell(x, y))
    ensures ColumnMarked(t, g, a, x, y0, y)
  {
  }

  lemma CellMarkedGrows(t1: set<PairKey>, t2: set<PairKey>, g: Grid, a: Id, key: int)
    requires t1 <= t2 && CellMarked(t1, g, a, key)
    ensures CellMarked(t2, g, a, key)
  {
    forall b | Has(g, key, b)
      ensures Marked(t2, a, b)
    {
      assert Marked(t1, a, b);
    }
  }

  lemma ColumnMarkedGrows(t1: set<PairKey>, t2: set<PairKey>, g: Grid, a: Id, x: int, y0: int, y1: int)
    requires t1 <= t2 && ColumnMarked(t1, g, a, x, y0, y1)
    ensures ColumnMarked(t2, g, a, x, y0, y1)
  {
    forall y | y0 <= y <= y1
      ensures CellMarked(t2, g, a, HashCell(x, y))
    {
      CellMarkedGrows(t1, t2, g, a, HashCell(x, y));
    }
  }

  /** Marks only accumulate. */
  lemma BigPairsMarkedGrows(t1: set<PairKey>, t2: set<PairKey>, ents: map<Id, Entity>, big: seq<Id>, order: seq<Id>)
    requires t1 <= t2 && BigPairsMarked(t1, ents, big, order)
    ensures BigPairsMarked(t2, ents, big, order)
  {
    forall i, j | 0 <= i < |big| && 0 <= j < |order| && ActiveCollider(ents, big[i]) && IsCollider(ents, order[j])
      ensures Marked(t2, big[i], order[j])
    {
      assert Marked(t1, big[i], order[j]);
    }
  }

  /** Every entity after MoveSystem. */
  function MoveAll(ents: map<Id, Entity>, dt: real): (r: map<Id, Entity>)
    ensures r.Keys == ents.Keys
    ensures forall id :: id in ents ==> r[id] == Moved(ents[id], dt)
  {
    map id | id in ents :: Moved(ents[id], dt)
  }

  /** Every entity after GravitySystem. */
  function FallAll(ents: map<Id, Entity>, dt: real): (r: map<Id, Entity>)
    ensures r.Keys == ents.Keys
    ensures forall id :: id in ents ==> r[id] == Gravitated(ents[id], dt)
  {
    map id | id in ents :: Gravitated(ents[id], dt)
  }

  /** Writing two keys twice keeps the second writes. */
  lemma OverwriteTwice<K, V>(g: map<K, V>, a: K, b: K, a1: V, b1: V, a2: V, b2: V)
    requires a != b
    ensures g[a := a1][b := b1][a := a2][b := b2] == g[a := a2][b := b2]
  {
  }

  /** The collision pass so far, from the store ents0, the events events0 and the
      tested set tested0 it started with: the store and the events are the replay of
      the resolved links; each link was resolved right after its key first went into
      the tested set; and every other key the pass added names a pair one of whose
      sides is not a collider. */
  ghost predicate Logged(entities: map<Id, Entity>, events: seq<CollisionEvent>, testedPairs: set<PairKey>, resolved: seq<Link>,
    ents0: map<Id, Entity>, events0: seq<CollisionEvent>, tested0: set<PairKey>, m: MathLib)
    requires ValidMath(m)
  {
    && State(entities, events) == Replay(State(ents0, events0), resolved, m)
    && SameColliders(entities, ents0)
    && Fresh(resolved, tested0)
    && tested0 + Keys(resolved) <= testedPairs
    && (forall p :: p in testedPairs && p !in tested0 && p !in Keys(resolved) ==> !Live(ents0, p))
  }

  /** The outcome of a collision pass that began with no tested pairs on the store
      ents0 and the events events0: the store is the replay of the log, no pair is
      logged twice, and every other tested key names a pair that is not two
      colliders. */
  ghost predicate Collided(entities: map<Id, Entity>, testedPairs: set<PairKey>, resolved: seq<Link>,
    ents0: map<Id, Entity>, events0: seq<CollisionEvent>, m: MathLib)
    requires ValidMath(m)
  {
    && entities == Replay(State(ents0, events0), resolved, m).ents
    && Fresh(resolved, {}) && Keys(resolved) <= testedPairs
    && (forall p :: p in testedPairs && p !in Keys(resolved) ==> !Live(ents0, p))
  }

  lemma LoggedFromScratch(entities: map<Id, Entity>, events: seq<CollisionEvent>, testedPairs: set<PairKey>, resolved: seq<Link>,
    ents0: map<Id, Entity>, events0: seq<CollisionEvent>, m: MathLib)
    requires ValidMath(m) && Logged(entities, events, testedPairs, resolved, ents0, events0, {}, m)
    ensures entities.Keys == ents0.Keys && Collided(entities, testedPairs, resolved, ents0, events0, m)
  {
  }

  /** The record of entity id taken when the log had rec.0 links: the replay of that
      much of the log, and a collider. */
  ghost predicate SweptFrom(rec: (nat, Entity), id: Id, log: seq<Link>, ents0: map<Id, Entity>, events0: seq<CollisionEvent>, m: MathLib)
    requires ValidMath(m)
  {
    rec.0 <= |log| && id in ents0 && rec.1 == Replay(State(ents0, events0), log[..rec.0], m).ents[id] && Collidable(rec.1)
  }

  /** Unless the record's centre is NaN, every id listed in a cell of its swept span
      has been marked against id. */
  ghost predicate SweepMarked(tested: set<PairKey>, g: Grid, id: Id, rec: Entity, dt: real, m: MathLib) {
    Collidable(rec) && (!rec.nanCentre ==> SpanMarked(tested, g, id, SpanOf(rec, dt, m)))
  }

  lemma SweepMarkedGrows(t1: set<PairKey>, t2: set<PairKey>, g: Grid, id: Id, rec: Entity, dt: real, m: MathLib)
    requires t1 <= t2 && SweepMarked(t1, g, id, rec, dt, m)
    ensures SweepMarked(t2, g, id, rec, dt, m)
  {
    if !rec.nanCentre {
      SpanMarkedGrows(t1, t2, g, id, SpanOf(rec, dt, m));
    }
  }

  /** The current record of a collider is the replay of the whole log so far. */
  lemma SweptNow(id: Id, log: seq<Link>, ents: map<Id, Entity>, events: seq<CollisionEvent>, ents0: map<Id, Entity>, events0: seq<CollisionEvent>, m: MathLib)
    requires ValidMath(m) && State(ents, events) == Replay(State(ents0, events0), log, m)
    requires IsCollider(ents, id) && ents.Keys == ents0.Keys
    ensures SweptFrom((|log|, ents[id]), id, log, ents0, events0, m)
  {
    assert log[..|log|] == log;
  }

  /** A record taken from a prefix of the log stays one as the log grows. */
  lemma SweptFromGrows(rec: (nat, Entity), id: Id, log1: seq<Link>, log2: seq<Link>, ents0: map<Id, Entity>, events0: seq<CollisionEvent>, m: MathLib)
    requires ValidMath(m) && log1 <= log2 && SweptFrom(rec, id, log1, ents0, events0, m)
    ensures SweptFrom(rec, id, log2, ents0, events0, m)
  {
    assert log2[..rec.0] == log1[..rec.0];
  }

  /** Inserting id under the key of cell (x, y) extends the column inserted so far by
      that cell. */
  lemma ColumnSnoc(g0: Grid, done: seq<int>, x: int, y0: int, y: int, id: Id)
    requires y0 <= y
    ensures InsertAll(g0, done + Column(x, y0, y + 1), id) == Insert(InsertAll(g0, done + Column(x, y0, y), id), HashCell(x, y), id)
  {
    assert done + Column(x, y0, y + 1) == (done + Column(x, y0, y)) + [HashCell(x, y)];
    InsertAllSnoc(g0, done + Column(x, y0, y), HashCell(x, y), id);
  }

  /** Resolving a newly marked pair of two colliders extends the log by that link. */
  lemma LogResolved(ents: map<Id, Entity>, events: seq<CollisionEvent>, tested: set<PairKey>, log: seq<Link>,
    ents0: map<Id, Entity>, events0: seq<CollisionEvent>, tested0: set<PairKey>, m: MathLib, a: Id, b: Id)
    requires ValidMath(m) && Logged(ents, events, tested, log, ents0, events0, tested0, m)
    requires IsCollider(ents, a) && IsCollider(ents, b)
    requires MakePair(a, b).Some? && MakePair(a, b).value !in tested
    ensures var s := Step(State(ents, events), Link(a, b), m);
      Logged(s.ents, s.events, tested + {MakePair(a, b).value}, log + [Link(a, b)], ents0, events0, tested0, m)
  {
    var log1 := log + [Link(a, b)];
    var key := MakePair(a, b).value;
    assert log1[..|log1| - 1] == log;
    assert Keys(log1) == Keys(log) + {key};
    SameCollidersStep(ents, events, Link(a, b), m, ents0);
  }

  /** resolvePair keeps every collider. */
  lemma SameCollidersStep(ents: map<Id, Entity>, events: seq<CollisionEvent>, l: Link, m: MathLib, ents0: map<Id, Entity>)
    requires ValidMath(m) && SameColliders(ents, ents0)
    ensures SameColliders(Step(State(ents, events), l, m).ents, ents0)
  {
    StepSameBody(State(ents, events), l, m);
  }

  /** A newly marked pair whose second side is not a collider adds a key of a pair that
      is not live. */
  lemma LogSkipped(ents: map<Id, Entity>, events: seq<CollisionEvent>, tested: set<PairKey>, log: seq<Link>,
    ents0: map<Id, Entity>, events0: seq<CollisionEvent>, tested0: set<PairKey>, m: MathLib, a: Id, b: Id)
    requires ValidMath(m) && Logged(ents, events, tested, log, ents0, events0, tested0, m)
    requires MakePair(a, b).Some? && !IsCollider(ents, b)
    ensures Logged(ents, events, tested + {MakePair(a, b).value}, log, ents0, events0, tested0, m)
  {
    assert !IsCollider(ents0, b);
  }

  class ECSWorld {
    /** The entity store: the components of every live entity. */
    var entities: map<Id, Entity>
    /** The order the queries visit the entities in. */
    var order: seq<Id>
    /** The E_CollisionEvent entities of the current tick. */
    var events: seq<CollisionEvent>
    var grid: Grid
    var bigBodies: seq<Id>
    var testedPairs: set<PairKey>
    /** The pairs handed to resolvePair since the collision pass began, in order. */
    ghost var resolved: seq<Link>

    /** The visit order lists every live entity once. */
    ghost predicate Valid()
      reads this
    {
      NoDup(order) && (forall id :: id in entities <==> id in order)
    }

    /** A world holding the given entities, with empty scratch state. */
    constructor (ents: map<Id, Entity>, visit: seq<Id>)
      requires NoDup(visit) && (forall id :: id in ents <==> id in visit)
      ensures Valid()
      ensures entities == ents && order == visit
      ensures events == [] && grid == map[] && bigBodies == [] && testedPairs == {}
    {
      entities := ents;
      order := visit;
      events := [];
      grid := map[];
      bigBodies := [];
      testedPairs := {};
      resolved := [];
    }

    // -------------------------------------------------------------------------
    // BuildBroadphaseGrid
    // -------------------------------------------------------------------------

    /** BuildBroadphaseGrid: clears the scratch state, then buckets every kept collider
        in visit order. */
    method BuildBroadphaseGrid(dt: real, m: MathLib)
      requires Valid()
      modifies this`grid, this`bigBodies, this`testedPairs
      ensures grid == BuildGrid(entities, order, dt, m)
      ensures bigBodies == BigBodies(entities, order, m)
      ensures testedPairs == {}
    {
      grid := map[];
      bigBodies := [];
      testedPairs := {};
      var i := 0;
      while i < |order|
        invariant 0 <= i <= |order|
        invariant grid == BuildGrid(entities, order[..i], dt, m)
        invariant bigBodies == BigBodies(entities, order[..i], m)
        invariant testedPairs == {}
      {
        var id := order[i];
        assert id in order;
        BuildStep(entities, order, i, dt, m);
        var e := entities[id];
        if Collidable(e) && e.collider.value.active && !e.nanCentre {
          PlaceBody(id, e, dt, m);
        }
        i := i + 1;
      }
      assert order[..i] == order;
    }

    /** The body of the grid build for one kept collider: a big body is listed, then
        the collider goes into every cell of its swept span, or into the one cell of
        its unswept centre when the span is more than 100 cells wide. */
    method PlaceBody(id: Id, e: Entity, dt: real, m: MathLib)
      requires Bucketed(e)
      modifies this`grid, this`bigBodies
      ensures bigBodies == old(bigBodies) + (if IsBig(e, m) then [id] else [])
      ensures grid == InsertAll(old(grid), KeysOf(e, dt, m), id)
    {
      var t, c := e.transform.value, e.collider.value;
      var r := BoundRadius(c, m);
      if r > BIG_RADIUS {
        bigBodies := bigBodies + [id];
      }
      var centre := Centre(t, c);
      var s := SweptSpan(centre, r, Displacement(e, dt));
      if s.maxX - s.minX > MAX_SPAN || s.maxY - s.minY > MAX_SPAN {
        var key := HashCell(TruncCell(centre.x), TruncCell(centre.y));
        grid := grid[key := (if key in grid then grid[key] else []) + [id]];
        assert KeysOf(e, dt, m) == [key];
        assert InsertAll(old(grid), [key], id) == Insert(InsertAll(old(grid), [], id), key, id);
        return;
      }
      InsertSpan(id, s);
    }

    /** The nested cell loops: id goes into every cell of the span, x outer, y inner. */
    method InsertSpan(id: Id, s: Span)
      modifies this`grid
      ensures grid == InsertAll(old(grid), Block(s.minX, s.maxX + 1, s.minY, s.maxY), id)
    {
      var x := s.minX;
      while x <= s.maxX
        invariant x == s.minX || s.minX < x <= s.maxX + 1
        invariant grid == InsertAll(old(grid), Block(s.minX, x, s.minY, s.maxY), id)
        decreases s.maxX - x
      {
        InsertColumn(id, x, s.minY, s.maxY, old(grid), Block(s.minX, x, s.minY, s.maxY));
        assert Block(s.minX, x + 1, s.minY, s.maxY) == Block(s.minX, x, s.minY, s.maxY) + Column(x, s.minY, s.maxY + 1);
        x := x + 1;
      }
      assert Block(s.minX, x, s.minY, s.maxY) == Block(s.minX, s.maxX + 1, s.minY, s.maxY);
    }

    /** The inner cell loop: id goes into cells (x, y0) .. (x, y1), after the keys
        `done` already inserted into g0. */
    method InsertColumn(id: Id, x: int, y0: int, y1: int, ghost g0: Grid, ghost done: seq<int>)
      requires grid == InsertAll(g0, done, id)
      modifies this`grid
      ensures grid == InsertAll(g0, done + Column(x, y0, y1 + 1), id)
    {
      var y := y0;
      assert done + Column(x, y0, y) == done;
      while y <= y1
        invariant y == y0 || y0 < y <= y1 + 1
        invariant grid == InsertAll(g0, done + Column(x, y0, y), id)
        decreases y1 - y
      {
        var key := HashCell(x, y);
        ColumnSnoc(g0, done, x, y0, y, id);
        grid := grid[key := (if key in grid then grid[key] else []) + [id]];
        y := y + 1;
      }
      assert Column(x, y0, y) == Column(x, y0, y1 + 1);
    }

    // -------------------------------------------------------------------------
    // MoveSystem, GravitySystem, ClearCollisionEvents
    // -------------------------------------------------------------------------

    /** MoveSystem: every entity with a transform and an unfrozen velocity advances by
        velocity * dt. */
    method MoveSystem(dt: real)
      requires Valid()
      modifies this`entities
      ensures entities == MoveAll(old(entities), dt)
    {
      var i := 0;
      while i < |order|
        invariant 0 <= i <= |order|
        invariant entities.Keys == old(entities).Keys
        invariant forall j :: 0 <= j < i ==> entities[order[j]] == Moved(old(entities)[order[j]], dt)
        invariant forall j :: i <= j < |order| ==> entities[order[j]] == old(entities)[order[j]]
      {
        MoveOne(order[i], dt);
        i := i + 1;
      }
    }

    /** The MoveSystem callback for one entity. */
    method MoveOne(id: Id, dt: real)
      requires id in entities
      modifies this`entities
      ensures entities == old(entities)[id := Moved(old(entities)[id], dt)]
    {
      var e := entities[id];
      if e.transform.Some? && e.velocity.Some? {
        var t, v := e.transform.value, e.velocity.value;
        if !v.freeze {
          t := t.(x := t.x + v.vx * dt);
          t := t.(y := t.y + v.vy * dt);
          entities := entities[id := e.(transform := Some(t))];
          assert entities[id].transform.value == Moved(e, dt).transform.value;
        }
      }
    }

    /** GravitySystem: every entity with a working gravity and an unfrozen velocity
        gains a * dt of vertical speed. */
    method GravitySystem(dt: real)
      requires Valid()
      modifies this`entities
      ensures entities == FallAll(old(entities), dt)
    {
      var i := 0;
      while i < |order|
        invariant 0 <= i <= |order|
        invariant entities.Keys == old(entities).Keys
        invariant forall j :: 0 <= j < i ==> entities[order[j]] == Gravitated(old(entities)[order[j]], dt)
        invariant forall j :: i <= j < |order| ==> entities[order[j]] == old(entities)[order[j]]
      {
        FallOne(order[i], dt);
        i := i + 1;
      }
    }

    /** The GravitySystem callback for one entity. */
    method FallOne(id: Id, dt: real)
      requires id in entities
      modifies this`entities
      ensures entities == old(entities)[id := Gravitated(old(entities)[id], dt)]
    {
      var e := entities[id];
      if e.velocity.Some? && e.gravity.Some? {
        var v, g := e.velocity.value, e.gravity.value;
        if g.work && !v.freeze {
          v := v.(vy := v.vy + g.a * dt);
          entities := entities[id := e.(velocity := Some(v))];
          assert entities[id].velocity.value == Gravitated(e, dt).velocity.value;
        }
      }
    }

    /** ClearCollisionEvents: every event entity is destroyed. */
    method ClearCollisionEvents()
      modifies this`events
      ensures events == []
    {
      events := [];
    }

    // -------------------------------------------------------------------------
    // tryMarkPair and resolvePair
    // -------------------------------------------------------------------------

    /** tryMarkPair: false for an entity with itself; otherwise records the ordered key
        and says whether it was new. */
    method TryMarkPair(a: Id, b: Id) returns (inserted: bool)
      modifies this`testedPairs
      ensures inserted <==> MakePair(a, b).Some? && MakePair(a, b).value !in old(testedPairs)
      ensures testedPairs == old(testedPairs) + (if MakePair(a, b).Some? then {MakePair(a, b).value} else {})
    {
      if a == b {
        return false;
      }
      var lo, hi := a, b;
      if lo > hi {
        lo, hi := hi, lo;
      }
      var key := PairKey(lo, hi);
      inserted := key !in testedPairs;
      testedPairs := testedPairs + {key};
    }

    /** The shape dispatch of resolvePair: the separating-axis test chosen by the two
        collider kinds, its translation turned to push B away from A. */
    static method Narrow(ta: Transform, ca: Collider, tb: Transform, cb: Collider, m: MathLib) returns (hit: Option<Vec2>)
      requires ValidMath(m)
      ensures hit == Narrowphase(ta, ca, tb, cb, m)
    {
      var polyA := ca.kind == Rect || ca.kind == Triangle;
      var polyB := cb.kind == Rect || cb.kind == Triangle;
      var circleA := ca.kind == Circle;
      var circleB := cb.kind == Circle;
      var pa, pb := Centre(ta, ca), Centre(tb, cb);
      if polyA && polyB {
        var vA := GetVertices(ta, ca, m);
        var vB := GetVertices(tb, cb, m);
        hit := SatPolyPoly(vA, vB, m);
      } else if circleA && circleB {
        hit := CircleCircle(pa, ca.radius, pb, cb.radius, m);
      } else if circleA && polyB {
        var vB := GetVertices(tb, cb, m);
        var mtvTemp := SatCirclePoly(pa, ca.radius, vB, m);
        hit := None;
        if mtvTemp.Some? {
          hit := Some(Mul(mtvTemp.value, -1.0));
        }
      } else {
        var vA := GetVertices(ta, ca, m);
        hit := SatCirclePoly(pb, cb.radius, vA, m);
      }
    }

    /** The positional correction: A moves back by its share invA / (invA + invB) of
        the translation, B forward by its share. */
    method Correct(idA: Id, idB: Id, mtv: Vec2, invA: real, invB: real)
      requires idA in entities && idB in entities && idA != idB
      requires entities[idA].transform.Some? && entities[idB].transform.Some?
      requires invA + invB > 0.0
      modifies this`entities
      ensures var c := Correction(old(entities)[idA], old(entities)[idB], mtv, invA, invB);
        entities == old(entities)[idA := c.a][idB := c.b]
    {
      var total := invA + invB;
      var ea, eb := entities[idA], entities[idB];
      var tA, tB := ea.transform.value, eb.transform.value;
      tA := tA.(x := tA.x - mtv.x * (invA / total));
      tA := tA.(y := tA.y - mtv.y * (invA / total));
      tB := tB.(x := tB.x + mtv.x * (invB / total));
      tB := tB.(y := tB.y + mtv.y * (invB / total));
      assert tA == Translate(ea, Neg(Mul(mtv, invA / total))).transform.value;
      assert tB == Translate(eb, Mul(mtv, invB / total)).transform.value;
      entities := entities[idA := ea.(transform := Some(tA))][idB := eb.(transform := Some(tB))];
    }

    /** The impulse step of resolvePair, after the correction. */
    method Impulse(idA: Id, idB: Id, mtv: Vec2, invA: real, invB: real, m: MathLib)
      requires idA in entities && idB in entities && idA != idB
      requires entities[idA].transform.Some? && entities[idB].transform.Some?
      requires invA + invB > 0.0
      modifies this`entities
      ensures var p := Bounce(old(entities)[idA], old(entities)[idB], invA, invB, mtv, m);
        entities == old(entities)[idA := p.a][idB := p.b]
    {
      var ea, eb := entities[idA], entities[idB];
      var n := Normalize(mtv, m);
      if LenSq(n) < NORMAL_EPS {
        assert entities[idA := ea][idB := eb] == entities;
        return;
      }
      var velA := VelocityOf(ea);
      var velB := VelocityOf(eb);
      var relVel := Sub(velB, velA);
      var velAlongNormal := Dot(relVel, n);
      if velAlongNormal > 0.0 {
        assert entities[idA := ea][idB := eb] == entities;
        return;
      }
      var j := ImpulseScale(ea, eb, invA, invB, n);
      var impulse := Mul(n, j);
      assert Bounce(ea, eb, invA, invB, mtv, m) == Kick(ea, eb, invA, invB, n);
      if ea.velocity.Some? && invA > 0.0 {
        entities := entities[idA := Accelerate(ea, Neg(Mul(impulse, invA)))];
      }
      if eb.velocity.Some? && invB > 0.0 {
        entities := entities[idB := Accelerate(eb, Mul(impulse, invB))];
      }
    }

    /** resolvePair: the early rejects, the shape test, the event, and for a solid
        contact the response. */
    method ResolvePair(idA: Id, idB: Id, m: MathLib)
      requires ValidMath(m)
      requires idA in entities && idB in entities && idA != idB
      requires Collidable(entities[idA]) && Collidable(entities[idB])
      modifies this`entities, this`events
      ensures State(entities, events) == Step(State(old(entities), old(events)), Link(idA, idB), m)
    {
      ghost var s := State(entities, events);
      var ea, eb := entities[idA], entities[idB];
      var tA, cA, tB, cB := ea.transform.value, ea.collider.value, eb.transform.value, eb.collider.value;
      var quiet := ea.nanCentre || eb.nanCentre || cA.layer != cB.layer || !cA.active || !cB.active;
      if !quiet {
        var pa, pb := Centre(tA, cA), Centre(tB, cB);
        var halfA, halfB := HalfExtents(cA), HalfExtents(cB);
        quiet := Abs(pa.x - pb.x) > halfA.x + halfB.x || Abs(pa.y - pb.y) > halfA.y + halfB.y;
      }
      var hit: Option<Vec2> := None;
      if !quiet {
        hit := Narrow(tA, cA, tB, cB, m);
      }
      if hit.None? {
        StepQuiet(s, Link(idA, idB), m);
        return;
      }
      StepContact(s, Link(idA, idB), hit.value, m);
      var isSensor := cA.isTrigger || cB.isTrigger;
      events := events + [CollisionEvent(idA, idB, isSensor)];
      if !isSensor {
        Respond(idA, idB, hit.value, m);
      }
    }

    /** The response of resolvePair to a solid contact: nothing when both inverse masses
        are 0, otherwise the correction and then the impulse. */
    method Respond(idA: Id, idB: Id, mtv: Vec2, m: MathLib)
      requires idA in entities && idB in entities && idA != idB
      requires Collidable(entities[idA]) && Collidable(entities[idB])
      modifies this`entities
      ensures var p := Resolver.Respond(old(entities)[idA], old(entities)[idB], mtv, m);
        entities == old(entities)[idA := p.a][idB := p.b]
    {
      var ea, eb := entities[idA], entities[idB];
      var invMassA, invMassB := 1.0, 1.0;
      if ea.mass.Some? {
        invMassA := ea.mass.value.invMass;
      } else if ea.collider.value.isStatic {
        invMassA := 0.0;
      }
      if eb.mass.Some? {
        invMassB := eb.mass.value.invMass;
      } else if eb.collider.value.isStatic {
        invMassB := 0.0;
      }
      assert invMassA == InvMass(ea) && invMassB == InvMass(eb);
      if (invMassA == 0.0 && invMassB == 0.0) || invMassA + invMassB <= 0.0 {
        assert entities[idA := ea][idB := eb] == entities;
        return;
      }
      ghost var c := Correction(ea, eb, mtv, invMassA, invMassB);
      ghost var a1, b1 := c.a, c.b;
      ghost var p := Bounce(a1, b1, invMassA, invMassB, mtv, m);
      assert p == Resolver.Respond(ea, eb, mtv, m);
      Correct(idA, idB, mtv, invMassA, invMassB);
      ghost var mid := entities;
      assert mid[idA] == a1 && mid[idB] == b1;
      Impulse(idA, idB, mtv, invMassA, invMassB, m);
      assert entities == mid[idA := p.a][idB := p.b];
      assert mid == old(entities)[idA := a1][idB := b1];
      OverwriteTwice(old(entities), idA, idB, a1, b1, p.a, p.b);
    }

    // -------------------------------------------------------------------------
    // CollisionSystem
    // -------------------------------------------------------------------------

    /** `if (!tryMarkPair(a, b)) skip`, then, when b is alive with a transform and a
        collider, resolvePair(a, b). */
    method MarkResolve(a: Id, b: Id, m: MathLib, ghost ents0: map<Id, Entity>, ghost events0: seq<CollisionEvent>, ghost tested0: set<PairKey>)
      requires ValidMath(m) && Logged(entities, events, testedPairs, resolved, ents0, events0, tested0, m)
      requires IsCollider(entities, a)
      modifies this`entities, this`events, this`testedPairs, this`resolved
      ensures Logged(entities, events, testedPairs, resolved, ents0, events0, tested0, m)
      ensures entities.Keys == old(entities).Keys
      ensures old(testedPairs) <= testedPairs && old(resolved) <= resolved && Marked(testedPairs, a, b)
    {
      var inserted := TryMarkPair(a, b);
      if !inserted {
        return;
      }
      if b !in entities || !Collidable(entities[b]) {
        LogSkipped(entities, events, old(testedPairs), resolved, ents0, events0, tested0, m, a, b);
        return;
      }
      LogResolved(entities, events, old(testedPairs), resolved, ents0, events0, tested0, m, a, b);
      ResolvePair(a, b, m);
      resolved := resolved + [Link(a, b)];
    }

    /** Pass A for one active big body: against every other entity of the collider
        query, in query order. */
    method HugeAgainstAll(idA: Id, m: MathLib, ghost ents0: map<Id, Entity>, ghost events0: seq<CollisionEvent>, ghost tested0: set<PairKey>)
      requires ValidMath(m) && Logged(entities, events, testedPairs, resolved, ents0, events0, tested0, m)
      requires IsCollider(entities, idA)
      modifies this`entities, this`events, this`testedPairs, this`resolved
      ensures entities.Keys == old(entities).Keys && Logged(entities, events, testedPairs, resolved, ents0, events0, tested0, m)
      ensures old(testedPairs) <= testedPairs && old(resolved) <= resolved
      ensures forall j :: 0 <= j < |order| && IsCollider(ents0, order[j]) ==> Marked(testedPairs, idA, order[j])
    {
      var j := 0;
      while j < |order|
        invariant 0 <= j <= |order|
        invariant entities.Keys == old(entities).Keys && Logged(entities, events, testedPairs, resolved, ents0, events0, tested0, m)
        invariant old(testedPairs) <= testedPairs && old(resolved) <= resolved
        invariant forall k :: 0 <= k < j && IsCollider(ents0, order[k]) ==> Marked(testedPairs, idA, order[k])
      {
        var idB := order[j];
        ghost var tested := testedPairs;
        if IsCollider(entities, idB) && idB != idA {
          MarkResolve(idA, idB, m, ents0, events0, tested0);
        }
        forall k | 0 <= k < j + 1 && IsCollider(ents0, order[k])
          ensures Marked(testedPairs, idA, order[k])
        {
          if k < j {
            assert Marked(tested, idA, order[k]);
          }
        }
        j := j + 1;
      }
    }

    /** Pass A: every big body that still has an active collider against every other
        entity of the collider query. */
    method PassA(m: MathLib, ghost ents0: map<Id, Entity>, ghost events0: seq<CollisionEvent>, ghost tested0: set<PairKey>)
      requires ValidMath(m) && Logged(entities, events, testedPairs, resolved, ents0, events0, tested0, m)
      modifies this`entities, this`events, this`testedPairs, this`resolved
      ensures entities.Keys == old(entities).Keys && Logged(entities, events, testedPairs, resolved, ents0, events0, tested0, m)
      ensures old(testedPairs) <= testedPairs && old(resolved) <= resolved
      ensures BigPairsMarked(testedPairs, ents0, bigBodies, order)
    {
      var i := 0;
      while i < |bigBodies|
        invariant 0 <= i <= |bigBodies|
        invariant entities.Keys == old(entities).Keys && Logged(entities, events, testedPairs, resolved, ents0, events0, tested0, m)
        invariant old(testedPairs) <= testedPairs && old(resolved) <= resolved
        invariant forall k, j :: 0 <= k < i && 0 <= j < |order| && ActiveCollider(ents0, bigBodies[k]) && IsCollider(ents0, order[j]) ==>
          Marked(testedPairs, bigBodies[k], order[j])
      {
        var idA := bigBodies[i];
        ghost var tested := testedPairs;
        if idA in entities && Collidable(entities[idA]) && entities[idA].collider.value.active {
          HugeAgainstAll(idA, m, ents0, events0, tested0);
        }
        forall k, j | 0 <= k < i + 1 && 0 <= j < |order| && ActiveCollider(ents0, bigBodies[k]) && IsCollider(ents0, order[j])
          ensures Marked(testedPairs, bigBodies[k], order[j])
        {
          if k < i {
            assert Marked(tested, bigBodies[k], order[j]);
          }
        }
        i := i + 1;
      }
    }

    /** Pass B for the entity idA: every id listed in a cell of its swept span, marked
        and, when alive with a transform and a collider, resolved. A NaN centre is
        skipped. */
    method PassB(idA: Id, dt: real, m: MathLib, ghost g: Grid, ghost ents0: map<Id, Entity>, ghost events0: seq<CollisionEvent>, ghost tested0: set<PairKey>)
      requires ValidMath(m) && Logged(entities, events, testedPairs, resolved, ents0, events0, tested0, m)
      requires IsCollider(entities, idA) && grid == g
      modifies this`entities, this`events, this`testedPairs, this`resolved
      ensures entities.Keys == old(entities).Keys && Logged(entities, events, testedPairs, resolved, ents0, events0, tested0, m)
      ensures old(testedPairs) <= testedPairs && old(resolved) <= resolved
      ensures !old(entities)[idA].nanCentre ==> SpanMarked(testedPairs, g, idA, SpanOf(old(entities)[idA], dt, m))
    {
      var e := entities[idA];
      if e.nanCentre {
        return;
      }
      PassBSpan(idA, SpanOf(e, dt, m), m, g, ents0, events0, tested0);
    }

    /** The nested cell loops of Pass B over the span, x outer, y inner. */
    method PassBSpan(idA: Id, s: Span, m: MathLib, ghost g: Grid, ghost ents0: map<Id, Entity>, ghost events0: seq<CollisionEvent>, ghost tested0: set<PairKey>)
      requires ValidMath(m) && Logged(entities, events, testedPairs, resolved, ents0, events0, tested0, m)
      requires IsCollider(entities, idA) && grid == g
      modifies this`entities, this`events, this`testedPairs, this`resolved
      ensures entities.Keys == old(entities).Keys && Logged(entities, events, testedPairs, resolved, ents0, events0, tested0, m)
      ensures old(testedPairs) <= testedPairs && old(resolved) <= resolved
      ensures SpanMarked(testedPairs, g, idA, s)
    {
      var x := s.minX;
      while x <= s.maxX
        invariant x == s.minX || s.minX < x <= s.maxX + 1
        invariant IsCollider(entities, idA)
        invariant entities.Keys == old(entities).Keys && Logged(entities, events, testedPairs, resolved, ents0, events0, tested0, m)
        invariant old(testedPairs) <= testedPairs && old(resolved) <= resolved
        invariant SpanMarked(testedPairs, g, idA, Span(s.minX, x - 1, s.minY, s.maxY))
        decreases s.maxX - x
      {
        ghost var tested := testedPairs;
        PassBColumn(idA, x, s.minY, s.maxY, m, g, ents0, events0, tested0);
        SpanMarkedGrows(tested, testedPairs, g, idA, Span(s.minX, x - 1, s.minY, s.maxY));
        SpanMarkedExtend(testedPairs, g, idA, s.minX, x, s.minY, s.maxY);
        x := x + 1;
      }
    }

    /** The inner cell loop of Pass B over cells (x, y0) .. (x, y1). */
    method PassBColumn(idA: Id, x: int, y0: int, y1: int, m: MathLib, ghost g: Grid, ghost ents0: map<Id, Entity>, ghost events0: seq<CollisionEvent>, ghost tested0: set<PairKey>)
      requires ValidMath(m) && Logged(entities, events, testedPairs, resolved, ents0, events0, tested0, m)
      requires IsCollider(entities, idA) && grid == g
      modifies this`entities, this`events, this`testedPairs, this`resolved
      ensures IsCollider(entities, idA)
      ensures entities.Keys == old(entities).Keys && Logged(entities, events, testedPairs, resolved, ents0, events0, tested0, m)
      ensures old(testedPairs) <= testedPairs && old(resolved) <= resolved
      ensures ColumnMarked(testedPairs, g, idA, x, y0, y1)
    {
      var y := y0;
      while y <= y1
        invariant y == y0 || y0 < y <= y1 + 1
        invariant IsCollider(entities, idA)
        invariant entities.Keys == old(entities).Keys && Logged(entities, events, testedPairs, resolved, ents0, events0, tested0, m)
        invariant old(testedPairs) <= testedPairs && old(resolved) <= resolved
        invariant ColumnMarked(testedPairs, g, idA, x, y0, y - 1)
        decreases y1 - y
      {
        ghost var tested := testedPairs;
        PassBCell(idA, HashCell(x, y), m, g, ents0, events0, tested0);
        ColumnMarkedGrows(tested, testedPairs, g, idA, x, y0, y - 1);
        ColumnMarkedExtend(testedPairs, g, idA, x, y0, y);
        y := y + 1;
      }
    }

    /** One cell of Pass B: skipped when the grid has no such key, otherwise every id
        listed there in turn. */
    method PassBCell(idA: Id, key: int, m: MathLib, ghost g: Grid, ghost ents0: map<Id, Entity>, ghost events0: seq<CollisionEvent>, ghost tested0: set<PairKey>)
      requires ValidMath(m) && Logged(entities, events, testedPairs, resolved, ents0, events0, tested0, m)
      requires IsCollider(entities, idA) && grid == g
      modifies this`entities, this`events, this`testedPairs, this`resolved
      ensures IsCollider(entities, idA)
      ensures entities.Keys == old(entities).Keys && Logged(entities, events, testedPairs, resolved, ents0, events0, tested0, m)
      ensures old(testedPairs) <= testedPairs && old(resolved) <= resolved
      ensures CellMarked(testedPairs, g, idA, key)
    {
      if key !in grid {
        return;
      }
      var ids := grid[key];
      var k := 0;
      while k < |ids|
        invariant 0 <= k <= |ids|
        invariant IsCollider(entities, idA)
        invariant entities.Keys == old(entities).Keys && Logged(entities, events, testedPairs, resolved, ents0, events0, tested0, m)
        invariant old(testedPairs) <= testedPairs && old(resolved) <= resolved
        invariant forall i :: 0 <= i < k ==> Marked(testedPairs, idA, ids[i])
      {
        ghost var tested := testedPairs;
        MarkResolve(idA, ids[k], m, ents0, events0, tested0);
        forall i | 0 <= i < k + 1
          ensures Marked(testedPairs, idA, ids[i])
        {
          if i < k {
            assert Marked(tested, idA, ids[i]);
          }
        }
        k := k + 1;
      }
    }

    /** CollisionSystem: for every entity of the collider query whose collider is
        active, Pass A and then Pass B. The store and the events end as the replay of
        the pairs handed to resolvePair, each pair at most once; once some active
        collider has been visited, every big body has been tried against every other
        collider. `swept` records, for every active collider of the query, the length of
        the log when its Pass B began and its record at that point, which is the replay
        of that much of the log; unless its centre is NaN, every id the grid lists in a
        cell of its swept span has been tried against it. */
    method CollisionSystem(dt: real, m: MathLib) returns (ghost swept: map<Id, (nat, Entity)>)
      requires ValidMath(m)
      modifies this`entities, this`events, this`testedPairs, this`resolved
      ensures Logged(entities, events, testedPairs, resolved, old(entities), old(events), old(testedPairs), m)
      ensures (exists j :: 0 <= j < |order| && ActiveCollider(old(entities), order[j])) ==>
        BigPairsMarked(testedPairs, old(entities), bigBodies, order)
      ensures forall j :: 0 <= j < |order| && ActiveCollider(old(entities), order[j]) ==> order[j] in swept
      ensures forall id :: id in swept ==>
        SweptFrom(swept[id], id, resolved, old(entities), old(events), m) && SweepMarked(testedPairs, grid, id, swept[id].1, dt, m)
    {
      resolved := [];
      swept := map[];
      ghost var ents0, events0, tested0 := entities, events, testedPairs;
      var i := 0;
      while i < |order|
        invariant 0 <= i <= |order|
        invariant entities.Keys == ents0.Keys && Logged(entities, events, testedPairs, resolved, ents0, events0, tested0, m)
        invariant (exists j :: 0 <= j < i && ActiveCollider(ents0, order[j])) ==> BigPairsMarked(testedPairs, ents0, bigBodies, order)
        invariant forall j :: 0 <= j < i && ActiveCollider(ents0, order[j]) ==> order[j] in swept
        invariant forall id :: id in swept ==>
          SweptFrom(swept[id], id, resolved, ents0, events0, m) && SweepMarked(testedPairs, grid, id, swept[id].1, dt, m)
      {
        var idA := order[i];
        if idA in entities && Collidable(entities[idA]) && entities[idA].collider.value.active {
          swept := CollideOne(idA, dt, m, ents0, events0, tested0, swept);
        }
        i := i + 1;
      }
    }

    /** One active collider of CollisionSystem: Pass A, then its Pass B, recorded in
        `swept` with the log length and its record when Pass B began. */
    method CollideOne(idA: Id, dt: real, m: MathLib, ghost ents0: map<Id, Entity>, ghost events0: seq<CollisionEvent>, ghost tested0: set<PairKey>,
      ghost swept0: map<Id, (nat, Entity)>) returns (ghost swept: map<Id, (nat, Entity)>)
      requires ValidMath(m) && entities.Keys == ents0.Keys && Logged(entities, events, testedPairs, resolved, ents0, events0, tested0, m)
      requires ActiveCollider(entities, idA)
      requires forall id :: id in swept0 ==>
        SweptFrom(swept0[id], id, resolved, ents0, events0, m) && SweepMarked(testedPairs, grid, id, swept0[id].1, dt, m)
      modifies this`entities, this`events, this`testedPairs, this`resolved
      ensures entities.Keys == ents0.Keys && Logged(entities, events, testedPairs, resolved, ents0, events0, tested0, m)
      ensures BigPairsMarked(testedPairs, ents0, bigBodies, order)
      ensures swept.Keys == swept0.Keys + {idA}
      ensures forall id :: id in swept ==>
        SweptFrom(swept[id], id, resolved, ents0, events0, m) && SweepMarked(testedPairs, grid, id, swept[id].1, dt, m)
    {
      ghost var tested1, log1 := testedPairs, resolved;
      PassA(m, ents0, events0, tested0);
      ghost var tested, log2 := testedPairs, resolved;
      SweptNow(idA, resolved, entities, events, ents0, events0, m);
      swept := swept0[idA := (|resolved|, entities[idA])];
      PassB(idA, dt, m, grid, ents0, events0, tested0);
      BigPairsMarkedGrows(tested, testedPairs, ents0, bigBodies, order);
      forall id | id in swept
        ensures SweptFrom(swept[id], id, resolved, ents0, events0, m) && SweepMarked(testedPairs, grid, id, swept[id].1, dt, m)
      {
        if id == idA {
          SweptFromGrows(swept[id], id, log2, resolved, ents0, events0, m);
        } else {
          SweptFromGrows(swept[id], id, log1, resolved, ents0, events0, m);
          SweepMarkedGrows(tested1, testedPairs, grid, id, swept[id].1, dt, m);
        }
      }
    }

    // -------------------------------------------------------------------------
    // One tick
    // -------------------------------------------------------------------------

    /** One world update: the grid build sees the entities as they were, then they
        move, fall, collide, and the tick's events are purged. The store ends as the
        replay of the resolved pairs from the moved and fallen entities; no pair is
        resolved twice; and every key the tick added names a resolved pair or a pair
        that is not two colliders. Every active collider's Pass B, taken from its record
        at that point of the replay, has tried it against every id the grid lists in a
        cell of its swept span. */
    method Update(dt: real, m: MathLib) returns (ghost swept: map<Id, (nat, Entity)>)
      requires Valid() && ValidMath(m)
      modifies this`entities, this`events, this`grid, this`bigBodies, this`testedPairs, this`resolved
      ensures Valid()
      ensures grid == BuildGrid(old(entities), order, dt, m) && bigBodies == BigBodies(old(entities), order, m)
      ensures events == []
      ensures Collided(entities, testedPairs, resolved, FallAll(MoveAll(old(entities), dt), dt), old(events), m)
      ensures (exists j :: 0 <= j < |order| && ActiveCollider(FallAll(MoveAll(old(entities), dt), dt), order[j])) ==>
        BigPairsMarked(testedPairs, FallAll(MoveAll(old(entities), dt), dt), bigBodies, order)
      ensures forall j :: 0 <= j < |order| && ActiveCollider(FallAll(MoveAll(old(entities), dt), dt), order[j]) ==>
        order[j] in swept
      ensures forall id :: id in swept ==>
        SweptFrom(swept[id], id, resolved, FallAll(MoveAll(old(entities), dt), dt), old(events), m) &&
        SweepMarked(testedPairs, grid, id, swept[id].1, dt, m)
    {
      BuildBroadphaseGrid(dt, m);
      MoveSystem(dt);
      GravitySystem(dt);
      ghost var moved, events0 := entities, events;
      swept := CollisionSystem(dt, m);
      LoggedFromScratch(entities, events, testedPairs, resolved, moved, events0, m);
      ClearCollisionEvents();
    }
  }
}
