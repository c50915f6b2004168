/** The uniform-grid broad phase built by the BuildBroadphaseGrid system
    (engine/ecs_world.cpp): which collider lands in which cells, and which colliders are
    "big bodies" tested against everything. These functions specify the grid-building
    method of the world. */
module Broadphase {
  import opened Wrappers
  import opened Components
  import opened Geometry
  import opened Hashing

  /** grid_: cell key to the ids inserted there, in insertion order. */
  type Grid = map<int, seq<Id>>

  /** (float)CELL_SIZE * 3: a bounding radius above this makes a big body. */
  const BIG_RADIUS: real := 384.0

  /** A swept cell span wider than this, on either axis, falls back to a single cell. */
  const MAX_SPAN: int := 100

  /** The bounding radius of a collider: its radius for a circle, otherwise the half
      diagonal of its width and height. */
  function BoundRadius(c: Collider, m: MathLib): real {
    if c.kind == Circle then c.radius
    else m.sqrt(c.width * 0.5 * (c.width * 0.5) + c.height * 0.5 * (c.height * 0.5))
  }

  /** `(int)floorf(v / CELL_SIZE)`: the cell of a coordinate. */
  function FloorCell(v: real): int {
    (v / 128.0).Floor
  }

  /** The floor cell of v is the cell whose extent [128 * c, 128 * (c + 1)) holds v. */
  lemma FloorCellBounds(v: real)
    ensures FloorCell(v) as real * 128.0 <= v < (FloorCell(v) + 1) as real * 128.0
  {
  }

  /** `(int)(v / CELL_SIZE)`: the quotient truncated toward zero. It is the floor cell
      for a non-negative coordinate and one more than it for a negative coordinate that
      is not a multiple of the cell size. */
  function TruncCell(v: real): (r: int)
    ensures v >= 0.0 ==> r == FloorCell(v)
    ensures v < 0.0 && FloorCell(v) as real * 128.0 != v ==> r == FloorCell(v) + 1
  {
    var q := v / 128.0;
    if q >= 0.0 then q.Floor else -((-q).Floor)
  }

  /** Cells [minX..maxX] x [minY..maxY]. */
  datatype Span = Span(minX: int, maxX: int, minY: int, maxY: int)

  /** The cell span of a body of radius r at `centre`, swept by its displacement d
      over the tick. */
  function SweptSpan(centre: Vec2, r: real, d: Vec2): Span {
    Span(
      FloorCell(centre.x - r + Min0(d.x)),
      FloorCell(centre.x + r + Max0(d.x)),
      FloorCell(centre.y - r + Min0(d.y)),
      FloorCell(centre.y + r + Max0(d.y)))
  }

  function Min0(v: real): real { if v < 0.0 then v else 0.0 }

  function Max0(v: real): real { if v > 0.0 then v else 0.0 }

  /** The entity's velocity, or zero without an E_Velocity. */
  function VelocityOf(e: Entity): Vec2 {
    if e.velocity.Some? then Vec2(e.velocity.value.vx, e.velocity.value.vy) else Zero
  }

  /** How far the entity moves over a tick of dt at its current velocity. */
  function Displacement(e: Entity, dt: real): Vec2 {
    Mul(VelocityOf(e), dt)
  }

  /** The cells a collider covers over a tick of dt: its bounding radius around its
      centre, swept by its displacement. The grid build and Pass B both use it. */
  function SpanOf(e: Entity, dt: real, m: MathLib): Span
    requires Collidable(e)
  {
    SweptSpan(Centre(e.transform.value, e.collider.value), BoundRadius(e.collider.value, m), Displacement(e, dt))
  }

  /** A collider the grid build keeps: active, with a centre that is not NaN. */
  predicate Bucketed(e: Entity) {
    Collidable(e) && e.collider.value.active && !e.nanCentre
  }

  /** Where an entity goes: one cell keyed by the truncated, unswept centre when the
      swept span exceeds 100 cells on an axis, otherwise every cell of the span. */
  datatype Placement = Fallback(key: int) | Cells(span: Span)

  function PlacementOf(e: Entity, dt: real, m: MathLib): Placement
    requires Collidable(e)
  {
    var o := Centre(e.transform.value, e.collider.value);
    var s := SpanOf(e, dt, m);
    if s.maxX - s.minX > MAX_SPAN || s.maxY - s.minY > MAX_SPAN then
      Fallback(HashCell(TruncCell(o.x), TruncCell(o.y)))
    else Cells(s)
  }

  /** The keys of cells (x, y0), (x, y0 + 1), ..., (x, yEnd - 1). */
  function Column(x: int, y0: int, yEnd: int): seq<int>
    decreases yEnd - y0
  {
    if yEnd <= y0 then [] else Column(x, y0, yEnd - 1) + [HashCell(x, yEnd - 1)]
  }

  /** The keys of the columns x0 .. xEnd - 1, each from y0 to y1, in the order of the
      nested loops (x outer, y inner). */
  function Block(x0: int, xEnd: int, y0: int, y1: int): seq<int>
    decreases xEnd - x0
  {
    if xEnd <= x0 then [] else Block(x0, xEnd - 1, y0, y1) + Column(xEnd - 1, y0, y1 + 1)
  }

  /** The keys an entity is inserted under, in insertion order. */
  function KeysOf(e: Entity, dt: real, m: MathLib): seq<int>
    requires Collidable(e)
  {
    match PlacementOf(e, dt, m)
    case Fallback(k) => [k]
    case Cells(s) => Block(s.minX, s.maxX + 1, s.minY, s.maxY)
  }

  /** `grid_[key].push_back(id)`. */
  function Insert(g: Grid, k: int, id: Id): Grid {
    g[k := (if k in g then g[k] else []) + [id]]
  }

  function InsertAll(g: Grid, keys: seq<int>, id: Id): Grid
    decreases |keys|
  {
    if keys == [] then g else Insert(InsertAll(g, keys[..|keys| - 1], id), keys[|keys| - 1], id)
  }

  /** Cell k of the grid lists id j. */
  predicate Has(g: Grid, k: int, j: Id) {
    k in g && j in g[k]
  }

  /** The grid after the build visits the entities of `order` in turn. */
  function BuildGrid(ents: map<Id, Entity>, order: seq<Id>, dt: real, m: MathLib): Grid
    decreases |order|
  {
    if order == [] then map[]
    else
      var prev := BuildGrid(ents, order[..|order| - 1], dt, m);
      var id := order[|order| - 1];
      if id in ents && Bucketed(ents[id]) then InsertAll(prev, KeysOf(ents[id], dt, m), id) else prev
  }

  /** A kept collider whose bounding radius is above 384. */
  predicate IsBig(e: Entity, m: MathLib) {
    Bucketed(e) && BoundRadius(e.collider.value, m) > BIG_RADIUS
  }

  /** bigBodies_ after the build visits the entities of `order` in turn. */
  function BigBodies(ents: map<Id, Entity>, order: seq<Id>, m: MathLib): seq<Id>
    decreases |order|
  {
    if order == [] then []
    else
      var prev := BigBodies(ents, order[..|order| - 1], m);
      var id := order[|order| - 1];
      if id in ents && IsBig(ents[id], m) then prev + [id] else prev
  }

  // ---------------------------------------------------------------------------
  // Properties
  // ---------------------------------------------------------------------------

  /** Visiting one more entity of the order: a kept collider is inserted under its
      keys and, when big, listed; any other entity changes nothing. */
  lemma BuildStep(ents: map<Id, Entity>, order: seq<Id>, i: nat, dt: real, m: MathLib)
    requires i < |order|
    ensures var id := order[i];
      BuildGrid(ents, order[..i + 1], dt, m) ==
        if id in ents && Bucketed(ents[id]) then InsertAll(BuildGrid(ents, order[..i], dt, m), KeysOf(ents[id], dt, m), id)
        else BuildGrid(ents, order[..i], dt, m)
    ensures var id := order[i];
      BigBodies(ents, order[..i + 1], m) ==
        if id in ents && IsBig(ents[id], m) then BigBodies(ents, order[..i], m) + [id]
        else BigBodies(ents, order[..i], m)
  {
    assert order[..i + 1][..i] == order[..i];
  }

  /** Appending one key inserts under it last. */
  lemma InsertAllSnoc(g: Grid, keys: seq<int>, k: int, id: Id)
    ensures InsertAll(g, keys + [k], id) == Insert(InsertAll(g, keys, id), k, id)
  {
    assert (keys + [k])[..|keys|] == keys;
  }

  /** Inserting an id under a list of keys adds exactly that id to exactly those
      cells. */
  lemma {:induction false} InsertAllHas(g: Grid, keys: seq<int>, id: Id, k: int, j: Id)
    ensures Has(InsertAll(g, keys, id), k, j) <==> Has(g, k, j) || (j == id && k in keys)
    decreases |keys|
  {
    if keys != [] {
      var init := keys[..|keys| - 1];
      InsertAllHas(g, init, id, k, j);
      assert keys == init + [keys[|keys| - 1]];
      assert k in keys <==> k in init || k == keys[|keys| - 1];
    }
  }

  /** The grid lists an id in a cell exactly when the id was visited, its collider is
      active with a non-NaN centre, and the cell is one of its keys. */
  lemma {:induction false} BuildGridHas(ents: map<Id, Entity>, order: seq<Id>, dt: real, m: MathLib, k: int, j: Id)
    ensures Has(BuildGrid(ents, order, dt, m), k, j) <==>
      j in order && j in ents && Bucketed(ents[j]) && k in KeysOf(ents[j], dt, m)
    decreases |order|
  {
    if order != [] {
      var init := order[..|order| - 1];
      var id := order[|order| - 1];
      BuildGridHas(ents, init, dt, m, k, j);
      assert order == init + [id];
      if id in ents && Bucketed(ents[id]) {
        InsertAllHas(BuildGrid(ents, init, dt, m), KeysOf(ents[id], dt, m), id, k, j);
      }
    }
  }

  /** bigBodies_ holds exactly the visited ids whose kept collider has a bounding radius
      above 384, each once when the visit order has no repeats. */
  lemma {:induction false} BigBodiesMembers(ents: map<Id, Entity>, order: seq<Id>, m: MathLib, j: Id)
    ensures j in BigBodies(ents, order, m) <==> j in order && j in ents && IsBig(ents[j], m)
    decreases |order|
  {
    if order != [] {
      var init := order[..|order| - 1];
      BigBodiesMembers(ents, init, m, j);
      assert order == init + [order[|order| - 1]];
    }
  }

  /** A cell in [x0..x1] x [y0..y1] is one of the block's keys; with C-int coordinates,
      no other cell is. */
  lemma {:induction false} BlockHas(x0: int, x1: int, y0: int, y1: int, x: int, y: int)
    ensures x0 <= x <= x1 && y0 <= y <= y1 ==> HashCell(x, y) in Block(x0, x1 + 1, y0, y1)
    ensures IsInt32(x0) && IsInt32(x1) && IsInt32(y0) && IsInt32(y1) && IsInt32(x) && IsInt32(y) ==>
      (HashCell(x, y) in Block(x0, x1 + 1, y0, y1) ==> x0 <= x <= x1 && y0 <= y <= y1)
    decreases x1 - x0
  {
    if x0 <= x1 {
      BlockHas(x0, x1 - 1, y0, y1, x, y);
      ColumnHas(x1, y0, y1, x, y);
      assert Block(x0, x1 + 1, y0, y1) == Block(x0, x1, y0, y1) + Column(x1, y0, y1 + 1);
      if x1 - 1 < x0 {
        assert Block(x0, x1, y0, y1) == [];
      } else {
        assert IsInt32(x0) && IsInt32(x1) ==> IsInt32(x1 - 1);
      }
    }
  }

  /** A cell (x, y) with y in [y0..y1] is a key of column x; with C-int coordinates, no
      other cell is. */
  lemma {:induction false} ColumnHas(cx: int, y0: int, y1: int, x: int, y: int)
    ensures x == cx && y0 <= y <= y1 ==> HashCell(x, y) in Column(cx, y0, y1 + 1)
    ensures IsInt32(cx) && IsInt32(y0) && IsInt32(y1) && IsInt32(x) && IsInt32(y) ==>
      (HashCell(x, y) in Column(cx, y0, y1 + 1) ==> x == cx && y0 <= y <= y1)
    decreases y1 - y0
  {
    if y0 <= y1 {
      ColumnHas(cx, y0, y1 - 1, x, y);
      if IsInt32(cx) && IsInt32(y0) && IsInt32(y1) && IsInt32(x) && IsInt32(y) {
        HashCellInjective(x, y, cx, y1);
        assert Column(cx, y0, y1 + 1) == Column(cx, y0, y1) + [HashCell(cx, y1)];
        if y1 - 1 < y0 {
          assert Column(cx, y0, y1) == [];
        } else {
          assert IsInt32(y1 - 1);
        }
      }
    }
  }

  /** The floor cell is monotone. */
  lemma FloorCellMonotone(a: real, b: real)
    requires a <= b
    ensures FloorCell(a) <= FloorCell(b)
  {
    FloorCellBounds(a);
    FloorCellBounds(b);
  }

  /** The swept span of a body with a non-negative radius is not empty. */
  lemma SweptSpanNonEmpty(centre: Vec2, r: real, d: Vec2)
    requires r >= 0.0
    ensures var s := SweptSpan(centre, r, d); s.minX <= s.maxX && s.minY <= s.maxY
  {
    FloorCellMonotone(centre.x - r + Min0(d.x), centre.x + r + Max0(d.x));
    FloorCellMonotone(centre.y - r + Min0(d.y), centre.y + r + Max0(d.y));
  }

  /** The swept bounds of a kept collider: its centre, widened by the bounding radius
      and stretched by the displacement vel * dt over the tick. */
  predicate InSweptBounds(e: Entity, m: MathLib, dt: real, px: real, py: real)
    requires Collidable(e)
  {
    var o := Centre(e.transform.value, e.collider.value);
    var d := Displacement(e, dt);
    var r := BoundRadius(e.collider.value, m);
    && o.x - r + Min0(d.x) <= px <= o.x + r + Max0(d.x)
    && o.y - r + Min0(d.y) <= py <= o.y + r + Max0(d.y)
  }

  /** Unless it falls back to a single cell, a kept collider is inserted in the cell of
      every point of its swept bounds. */
  lemma SweptBoundsCovered(e: Entity, dt: real, m: MathLib, px: real, py: real)
    requires Collidable(e) && PlacementOf(e, dt, m).Cells?
    requires InSweptBounds(e, m, dt, px, py)
    ensures HashCell(FloorCell(px), FloorCell(py)) in KeysOf(e, dt, m)
  {
    var o := Centre(e.transform.value, e.collider.value);
    SpanCovers(o, BoundRadius(e.collider.value, m), Displacement(e, dt), px, py);
  }

  /** Every point of the swept bounds lies in a cell of the swept span. */
  lemma SpanCovers(o: Vec2, r: real, d: Vec2, px: real, py: real)
    requires o.x - r + Min0(d.x) <= px <= o.x + r + Max0(d.x)
    requires o.y - r + Min0(d.y) <= py <= o.y + r + Max0(d.y)
    ensures var s := SweptSpan(o, r, d);
      HashCell(FloorCell(px), FloorCell(py)) in Block(s.minX, s.maxX + 1, s.minY, s.maxY)
  {
    BoundsCovered(o.x - r + Min0(d.x), o.x + r + Max0(d.x), o.y - r + Min0(d.y), o.y + r + Max0(d.y), px, py);
  }

  /** Every point of a box lies in a cell of the box's cell span. */
  lemma BoundsCovered(minX: real, maxX: real, minY: real, maxY: real, px: real, py: real)
    requires minX <= px <= maxX && minY <= py <= maxY
    ensures HashCell(FloorCell(px), FloorCell(py)) in
      Block(FloorCell(minX), FloorCell(maxX) + 1, FloorCell(minY), FloorCell(maxY))
  {
    FloorCellMonotone(minX, px);
    FloorCellMonotone(px, maxX);
    FloorCellMonotone(minY, py);
    FloorCellMonotone(py, maxY);
    BlockHas(FloorCell(minX), FloorCell(maxX), FloorCell(minY), FloorCell(maxY), FloorCell(px), FloorCell(py));
  }

  /** A big body is also in the grid: it is inserted in at least one cell. */
  lemma BigBodyInGrid(ents: map<Id, Entity>, order: seq<Id>, dt: real, m: MathLib, j: Id)
    requires ValidMath(m)
    requires j in BigBodies(ents, order, m)
    ensures exists k :: Has(BuildGrid(ents, order, dt, m), k, j)
  {
    BigBodiesMembers(ents, order, m, j);
    var e := ents[j];
    match PlacementOf(e, dt, m)
    case Fallback(k) =>
      BuildGridHas(ents, order, dt, m, k, j);
    case Cells(s) =>
      var o := Centre(e.transform.value, e.collider.value);
      SweptSpanNonEmpty(o, BoundRadius(e.collider.value, m), Displacement(e, dt));
      BlockHas(s.minX, s.maxX, s.minY, s.maxY, s.minX, s.minY);
      BuildGridHas(ents, order, dt, m, HashCell(s.minX, s.minY), j);
  }
}
