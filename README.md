# RBEngine collision core in Dafny

This project models the per-tick 2D collision pipeline of RBEngine, and the engine logic around it. Each part is proved against a specification.

- **Geometry and SAT kernel** (`engine/physics.hpp`, modules `Geometry` and `Sat`):
  - the vector helpers;
  - rectangle and triangle vertex generation;
  - polygon projection;
  - the three separating-axis tests, polygon against polygon, circle against polygon and circle against circle. Each returns the minimum translation vector (MTV).

  The loops of the source (`projectPoly`, the edge loop `testAxes`, the nearest-vertex loop, the centroid loops) are Dafny methods. Each is proved equal to a fold (`Scan`, `Nearest`, `Centroid`), and the fold's properties are proved as lemmas.
- **Keys of the scratch state** (`engine/ecs_world.h`, module `Hashing`):
  - `hashCellGlobal`, which packs a 32-bit x and a 32-bit y into one 64-bit cell key;
  - the ordered `PairKey` that `tryMarkPair` records;
  - `PairHash`;
  - `CELL_SIZE`.
- **The world** (`engine/ecs_world.cpp`):
  - The class `World.ECSWorld` has four scratch fields:
    - the entity store, a `map` from entity id to component record;
    - the query's visit order;
    - the tick's collision events;
    - `grid_`, `bigBodies_` and `testedPairs_`.
  - `BuildBroadphaseGrid` (specified by module `Broadphase`) buckets every active collider into the cells its velocity-swept bounds cover. Big bodies are also listed.
  - `MoveSystem` and `GravitySystem` (specified by module `Systems`).
  - `CollisionSystem`, made of Pass A (big bodies against every collider) and Pass B (grid neighbours). It uses `tryMarkPair` and `resolvePair`, which is specified by module `Resolver`.
  - The PostUpdate event purge.
  - `ECSWorld.Update` runs one tick in the registered phase order:
    1. grid build;
    2. move;
    3. gravity;
    4. collision;
    5. purge.

  A ghost log `resolved` records every pair handed to `resolvePair`. The collision pass is proved to leave the store and the events exactly as replaying that log would. No unordered pair is resolved twice. Every other key in `testedPairs_` names a pair that is not two colliders.
- **Components** (`engine/components.h`, module `Components`):
  - the component records and their defaults;
  - `E_Mass`, as a class with its two constructors and `setStatic`.
- **The engine loop** (`engine/engine.cpp`, module `Engine`):
  - `processInput`'s press/release edge detection over the mouse buttons and the 350 key arrays, as the class `InputState`;
  - the key and button guards;
  - `SetVSync` and `MaxFPS`;
  - the dt clamp of `tick`;
  - scene registration and immediate, reloaded and deferred scene loads.
- **The texture cache** (`engine/TextureManager.cpp`, module `Textures`): `loadTexture`. Whether the image decodes and the id the GL generates are parameters of the call.

Floats are modelled as `real`. `sqrtf` and the pair `(cosf, sinf)` are the fields of a `MathLib` value. The only assumptions about them are `ValidMath`: `sqrt` of a non-negative number is non-negative and squares back to it, and the angle 0 has cosine 1 and sine 0.

## Model

| member | source | states |
|---|---|---|
| Components.DefaultCollider | engine/components.h:105-118 | A default collider is a rectangle with zero size and radius. It is neither static nor a trigger, it is active, it is on layer 1 and its offsets are zero. |
| Components.DefaultMaterial | engine/components.h:136-139 | The default physics material has restitution 0.3 and friction 0.3. |
| Components.DefaultVelocity | engine/components.h:42 | The default velocity is (0, 0) and not frozen. |
| Components.DefaultGravity | engine/components.h:43 | The default gravity has acceleration 9.81 and is working. |
| Components.ConsistentMassIsInverse | engine/components.h:126-134 | For any mass value the constructors or setStatic can produce: invMass >= 0; invMass is 0 exactly when mass <= 0; mass * invMass == 1 for a positive mass. |
| Components.EMass.constructor | engine/components.h:130 | `E_Mass()` has mass 1 and invMass 1, a consistent mass. |
| Components.EMass.FromMass | engine/components.h:131 | `E_Mass(m)` keeps m as the mass. invMass is 1/m for m > 0 and 0 otherwise. |
| Components.EMass.SetStatic | engine/components.h:133 | `setStatic` zeroes both fields, which still leaves a consistent mass. |
| Geometry.DotSymmetric | engine/physics.hpp:8 | The dot product does not depend on the order of its operands, and a vector dotted with itself gives its squared length. |
| Geometry.LenSq | engine/physics.hpp:9 | A squared length is never negative. |
| Geometry.Sub | engine/physics.hpp:12 | The difference is the zero vector exactly when the operands are equal. |
| Geometry.Add | engine/physics.hpp:13 | Adding b and then subtracting b gives back the first operand. |
| Geometry.MulScales | engine/physics.hpp:14 | Scaling by s scales the squared length by s*s and every dot product by s. |
| Geometry.Perp | engine/physics.hpp:15 | The perpendicular is orthogonal to its argument and has the same length. |
| Geometry.NormalizeSpec | engine/physics.hpp:10-11 | `normalize` gives the zero vector when the length is at most 1e-8. Otherwise it gives a unit vector pointing the same way as its argument. |
| Geometry.NormalizeLongVector | engine/physics.hpp:11 | A vector whose squared length is at least 1e-8 normalizes to a unit vector. |
| Geometry.Rotate | engine/physics.hpp:17-21 | Rotating by 0 degrees leaves the vector unchanged. |
| Geometry.GetVertices | engine/physics.hpp:28-53 | A rectangle has 4 vertices, a triangle 3 and a circle none. At angle 0 the rectangle's corners are the centre ± (hw, hh), and the triangle's vertices are (0, -hh), (-hw, hh) and (hw, hh) from the centre, in the source's order. |
| Geometry.ProjMin | engine/physics.hpp:55-62 | The smallest projection is a lower bound of every vertex's projection, and some vertex attains it. |
| Geometry.ProjMax | engine/physics.hpp:55-62 | The largest projection is an upper bound of every vertex's projection, and some vertex attains it. |
| Geometry.ProjectPoly | engine/physics.hpp:55-62 | The loop returns minOut <= maxOut. Every vertex projects into [minOut, maxOut], both bounds are attained by a vertex, and they equal ProjMin and ProjMax. |
| Geometry.ComputeCentroid | engine/physics.hpp:95-99 | The centroid loop returns the mean of the vertices. |
| Hashing.U32 | engine/ecs_world.h:16 | `(uint32_t)x` lies in [0, 2^32). It is x for a non-negative C int and x + 2^32 for a negative one. |
| Hashing.HashCell | engine/ecs_world.h:15-17 | A cell key is a 64-bit unsigned value. |
| Hashing.HashCellHalves | engine/ecs_world.h:16 | The upper 32 bits of the key are x's bit pattern and the lower 32 bits are y's. |
| Hashing.HashCellInjective | engine/ecs_world.h:15-17 | For C-int coordinates, two cells have the same key exactly when they are the same cell. |
| Hashing.MakePair | engine/ecs_world.cpp:149-153 | There is no key for an entity paired with itself. Otherwise the key is ordered (a < b) and holds exactly the two ids. |
| Hashing.MakePairSymmetric | engine/ecs_world.h:43-46 | The key does not depend on the order of the two ids, and two distinct ids share a key exactly with the same unordered pair. |
| Broadphase.FloorCellBounds | engine/ecs_world.cpp:114-117 | The floored cell c of a coordinate v satisfies 128c <= v < 128(c+1). |
| Broadphase.TruncCell | engine/ecs_world.cpp:120 | The fallback cell, truncated toward zero, is the floored cell for v >= 0. For negative v not on a cell boundary it is one more than the floored cell. |
| Broadphase.BuildStep | engine/ecs_world.cpp:81-128 | Visiting one more entity inserts a kept collider under its keys and appends it to bigBodies_ when it is big. Anything else changes nothing. |
| Broadphase.InsertAllHas | engine/ecs_world.cpp:124-128 | Inserting an id under a list of keys adds exactly that id to exactly those cells. |
| Broadphase.BuildGridHas | engine/ecs_world.cpp:75-128 | After the build, a cell lists an id exactly when the id was visited, its collider is active with a non-NaN centre, and the cell is one of its keys. |
| Broadphase.BigBodiesMembers | engine/ecs_world.cpp:102-105 | bigBodies_ holds exactly the visited kept colliders whose bounding radius exceeds 3 * CELL_SIZE. |
| Broadphase.BlockHas | engine/ecs_world.cpp:124-128 | A cell is a key of the span's nested loops exactly when it lies in the span, given C-int coordinates. |
| Broadphase.ColumnHas | engine/ecs_world.cpp:125-127 | A cell is a key of the inner loop exactly when it lies in the column, given C-int coordinates. |
| Broadphase.SweptSpanNonEmpty | engine/ecs_world.cpp:107-117 | The swept cell span of a body with a non-negative radius is never empty. |
| Broadphase.SweptBoundsCovered | engine/ecs_world.cpp:107-128 | Unless the 100-cell fallback applies, every point of a collider's velocity-swept bounds lies in a cell the collider is inserted into. |
| Broadphase.BigBodyInGrid | engine/ecs_world.cpp:102-128 | A big body is also inserted into at least one grid cell. |
| Sat.ExtentsOn | engine/physics.hpp:119-124 | Both projection intervals are well formed. A circle's interval is exactly 2r wide. |
| Sat.TestAxis | engine/physics.hpp:77-87 | One axis ends the test exactly when its projections leave a gap. Otherwise the probe keeps the smaller of its overlap and this axis's depth. |
| Sat.EdgeNormals | engine/physics.hpp:69-73 | There is one normal per edge, in edge order, and each is the normalized perpendicular of the edge from vertex i to vertex (i+1) mod n. |
| Sat.UsableIsUnit | engine/physics.hpp:73-75 | An edge normal that is not skipped as degenerate is a unit vector. |
| Sat.ScanSeparation | engine/physics.hpp:69-90 | The edge loop reports separation exactly when it started separated or some tried axis shows a gap. |
| Sat.ScanStaysSeparated | engine/physics.hpp:81 | Once the loop reports separation, it stays separated. |
| Sat.ScanMinimum | engine/physics.hpp:83-87 | When the loop ends overlapping, its overlap is at most the starting one and at most the depth on every tried axis. It is either the starting probe or the depth of one tried axis, kept with that axis. |
| Sat.ScanInRange | engine/physics.hpp:83-87 | Over unit axes, the kept overlap stays in [0, FLT_MAX], and the kept axis is a unit vector unless the probe is still the initial one. |
| Sat.Toward | engine/physics.hpp:101-102 | The flipped axis points along the given direction, keeps its length, and is the axis or its negation. |
| Sat.OutcomeFacts | engine/physics.hpp:101-104 | The MTV is the kept axis, pointed along the direction and scaled by the overlap. Its length is the overlap (unless no axis was tried), and it points along the direction. |
| Sat.PolyPolySeparation | engine/physics.hpp:68-93 | `satPolyPoly` returns false exactly when some non-degenerate edge normal of A or of B shows a projection gap. |
| Sat.PolyPolyMinimum | engine/physics.hpp:83-87 | On success the overlap is at most the depth on every tried edge normal of A and B. |
| Sat.PolyPolyProbeRange | engine/physics.hpp:65-93 | The final overlap lies in [0, FLT_MAX] and the kept axis is a unit vector unless the probe is still the initial one. |
| Sat.PolyPolyTranslation | engine/physics.hpp:95-104 | On success the MTV points from A's vertex mean towards B's. |
| Sat.Nearest | engine/physics.hpp:135-143 | The index found is the first vertex at the least squared distance from the centre. |
| Sat.CirclePolySeparation | engine/physics.hpp:112-161 | `satCirclePoly` returns false exactly when a non-degenerate edge normal, or the vertex axis when it is tried, shows a gap. |
| Sat.CirclePolyMinimum | engine/physics.hpp:128-160 | On success the overlap is at most the depth on every tried edge normal and on the tried vertex axis. |
| Sat.CirclePolyProbeRange | engine/physics.hpp:109-161 | For a non-negative radius the final overlap lies in [0, FLT_MAX], and the kept axis is a unit vector unless the probe is still the initial one. |
| Sat.CirclePolyTranslation | engine/physics.hpp:163-171 | On success the MTV points from the polygon's vertex mean towards the circle's centre. |
| Sat.CircleCircle | engine/physics.hpp:174-191 | The circles overlap exactly when the squared centre distance is below (r1+r2)^2. Coincident centres give the MTV (r1+r2, 0). Otherwise the MTV is the unit centre offset times r1+r2-dist. |
| Sat.CircleCircleTranslation | engine/physics.hpp:187-189 | With centres at least 1e-6 apart, the MTV points from c1 towards c2 and has length r1+r2-dist. |
| Sat.MeasureAxis | engine/physics.hpp:78-79 | The two `projectPoly` calls (or the circle's projection) give the intervals ExtentsOn specifies. |
| Sat.TryAxis | engine/physics.hpp:77-87 | One tried axis of the loop computes TestAxis. |
| Sat.TestAxes | engine/physics.hpp:68-90 | The `testAxes` loop computes the fold of TestAxis over the shape's usable edge normals. |
| Sat.TestEdge | engine/physics.hpp:70-87 | One iteration computes the edge normal, skips it when degenerate and tries it otherwise. |
| Sat.SatPolyPoly | engine/physics.hpp:64-106 | The imperative test equals PolyPoly, to which the Separation, Minimum and Translation lemmas apply. |
| Sat.NearestVertex | engine/physics.hpp:135-143 | The nearest-vertex loop returns the vertex Nearest selects. |
| Sat.SatCirclePoly | engine/physics.hpp:108-172 | The imperative test equals CirclePoly, to which the Separation, Minimum and Translation lemmas apply. |
| Resolver.Narrowphase | engine/ecs_world.cpp:177-201 | Two circles are dispatched to the circle-circle test, from A's centre to B's. |
| Resolver.Flipped | engine/ecs_world.cpp:190-196 | The circle-polygon MTV is negated when the circle is side A, and the test result is kept. |
| Resolver.Translate | engine/ecs_world.cpp:224-228 | A transform moved by d has its position advanced by d, and nothing else changes. |
| Resolver.Accelerate | engine/ecs_world.cpp:254-261 | A velocity changed by dv is advanced by dv and keeps its freeze flag. Nothing else changes. |
| Resolver.Correction | engine/ecs_world.cpp:224-228 | The positional correction changes only the two transforms. A side with inverse mass 0 stays where it is. |
| Resolver.Kick | engine/ecs_world.cpp:251-261 | The impulse changes only velocities. A side without a velocity or with inverse mass <= 0 is unchanged. |
| Resolver.Bounce | engine/ecs_world.cpp:230-261 | After the correction, changes affect velocities only. There is none when the normal is degenerate (lenSq < 1e-8) or the bodies already separate along it (vn > 0), and none for a side without velocity or with zero inverse mass. |
| Resolver.Rejected | engine/ecs_world.cpp:158-172 | A layer mismatch or an inactive collider always rejects. A pair that is not rejected has overlapping half-extent intervals about the two centres on x and on y. |
| Resolver.RejectedSymmetric | engine/ecs_world.cpp:158-172 | The early reject does not depend on which entity of the pair is A. |
| Resolver.InvMass | engine/ecs_world.cpp:210-217 | The E_Mass's invMass when there is one, else 0 for a static collider, else 1. With a consistent E_Mass it is non-negative, and it is 0 exactly for a non-positive mass or, without E_Mass, for a static collider. |
| Resolver.Respond | engine/ecs_world.cpp:210-261 | A solid contact changes only transforms and velocities, both sides keep a transform, and a side with inverse mass 0 is unchanged. |
| Resolver.ResolvePair | engine/ecs_world.cpp:155-262 | An event exists exactly when no early reject applies (layer, inactive, axis-aligned gap, NaN centre) and the shape test finds contact. The event is (A, B, either is a trigger). Without an event, for a trigger, or with both inverse masses 0, nothing changes. Otherwise only transforms and velocities change. |
| Resolver.CorrectionSplitsMtv | engine/ecs_world.cpp:219-228 | When the total inverse mass is positive, the offset from A to B grows by exactly the MTV, and the inverse-mass-weighted displacements cancel. |
| Resolver.BounceCases | engine/ecs_world.cpp:230-261 | The impulse step either leaves both sides alone or applies the impulse along the normalized MTV. |
| Resolver.KickDeltas | engine/ecs_world.cpp:251-261 | A takes -impulse * invA and B takes +impulse * invB, with impulse = n * j. |
| Resolver.ImpulseBalanced | engine/ecs_world.cpp:251-261 | The impulse is equal and opposite: invB * dvA + invA * dvB == 0 on both axes, so momentum is conserved. |
| Resolver.RestitutionLaw | engine/ecs_world.cpp:230-251 | After the impulse, the relative normal velocity of two movable bodies goes from vn <= 0 to -e * vn, with e the mean restitution of two materials, or 0.3. |
| Resolver.ContactPointsFromAToB | engine/ecs_world.cpp:177-201 | Whatever the shape kinds, the dispatched MTV points from A's centre (or vertex mean) towards B's, which is the direction the correction pushes B. |
| Resolver.CircleRejectIsSound | engine/ecs_world.cpp:166-172 | For two circles, the axis-aligned early reject never drops a pair the circle test would report. |
| Resolver.RectRejectIsSound | engine/ecs_world.cpp:166-172 | For two unrotated rectangles, the axis-aligned early reject never drops a pair the polygon test would report: an x gap shows on A's edge normal (-1, 0), a y gap on (0, 1). |
| Systems.Moved | engine/ecs_world.cpp:38-45 | With a transform and an unfrozen velocity the position advances by v*dt. Otherwise the entity is unchanged. Only the transform changes. |
| Systems.Gravitated | engine/ecs_world.cpp:48-54 | With a working gravity and an unfrozen velocity, vy grows by a*dt. Otherwise the entity is unchanged. Only the velocity changes, and its freeze flag stays. |
| Systems.MoveComposes | engine/ecs_world.cpp:38-45 | Two moves in a row are one move over the summed time. |
| Systems.GravityComposes | engine/ecs_world.cpp:48-54 | Two gravity steps in a row are one step over the summed time. |
| Systems.MoveThenGravity | engine/ecs_world.cpp:38-54 | The two systems commute on one entity. |
| Systems.StepQuiet | engine/ecs_world.cpp:158-172 | A rejected pair, a pair with a NaN centre or a pair found apart leaves the store and the events unchanged. |
| Systems.StepContact | engine/ecs_world.cpp:203-208 | A pair in contact appends its event, and only a non-trigger pair takes the response. |
| Systems.ReplaySameBody | engine/ecs_world.cpp:155-262 | Over any sequence of resolves, an entity changes only in its transform and velocity and keeps both. |
| Systems.KeysMembers | engine/ecs_world.cpp:149-153 | The keys of a log are exactly the keys of its links. |
| Systems.FreshNoRepeats | engine/ecs_world.cpp:149-153 | In a log where each resolve follows a fresh key insertion, each pair is distinct, is not keyed before the pass, and is resolved at most once. |
| Systems.EventsFromLinks | engine/ecs_world.cpp:205-206 | Every event a pass raises is for a resolved pair, with A first. |
| Systems.OneEventPerPair | engine/ecs_world.cpp:149-153 | No two events of a pass are for the same unordered pair. |
| Systems.TriggersNeverMove | engine/ecs_world.cpp:208 | A store whose colliders are all triggers is never moved by the collision pass. |
| Systems.StaticBodiesStay | engine/ecs_world.cpp:210-222 | An entity with inverse mass 0 never changes during the collision pass. |
| World.SpanMarkedHas | engine/ecs_world.cpp:308-314 | Once a span is marked, every id listed in one of its cells is marked against the entity. |
| World.BigPairsMarkedGrows | engine/ecs_world.cpp:149-153 | Marks only accumulate within a tick. |
| World.LoggedFromScratch | engine/ecs_world.cpp:75-77 | A pass that began with no tested pairs ends with the store replaying a duplicate-free log of resolved pairs. |
| World.LogResolved | engine/ecs_world.cpp:149-153 | Resolving a newly marked pair of two colliders extends the log by that pair and keeps the pass invariant. |
| World.ECSWorld.constructor | engine/ecs_world.cpp:23 | A world starts with the given entities and empty scratch state. |
| World.ECSWorld.BuildBroadphaseGrid | engine/ecs_world.cpp:72-130 | The build clears testedPairs_ and leaves exactly the grid and bigBodies_ that Broadphase specifies. |
| World.ECSWorld.PlaceBody | engine/ecs_world.cpp:102-128 | A kept collider is listed when big and inserted under its keys: one fallback cell, or the whole span. |
| World.ECSWorld.InsertSpan | engine/ecs_world.cpp:124-128 | The nested loops insert the id under every cell of the span, x outer and y inner. |
| World.ECSWorld.InsertColumn | engine/ecs_world.cpp:125-127 | The inner loop inserts the id under cells (x, y0) .. (x, y1) in order. |
| World.ECSWorld.MoveSystem | engine/ecs_world.cpp:38-45 | Every entity is replaced by its moved record. |
| World.ECSWorld.MoveOne | engine/ecs_world.cpp:39-44 | One entity is replaced by its moved record. |
| World.ECSWorld.GravitySystem | engine/ecs_world.cpp:48-54 | Every entity is replaced by its gravitated record. |
| World.ECSWorld.FallOne | engine/ecs_world.cpp:49-53 | One entity is replaced by its gravitated record. |
| World.ECSWorld.ClearCollisionEvents | engine/ecs_world.cpp:429-433 | No collision event survives the purge. |
| World.ECSWorld.TryMarkPair | engine/ecs_world.cpp:149-153 | The result is true exactly when the ordered key of a pair of distinct ids is new. The key is then added to testedPairs_. |
| World.ECSWorld.Narrow | engine/ecs_world.cpp:177-201 | The shape dispatch computes Narrowphase. |
| World.ECSWorld.Correct | engine/ecs_world.cpp:224-228 | The two transforms are updated in place to the Correction of the pair. |
| World.ECSWorld.Impulse | engine/ecs_world.cpp:230-261 | The two velocities are updated in place to the Bounce of the pair. |
| World.ECSWorld.ResolvePair | engine/ecs_world.cpp:155-262 | The store and the events become Step of the pair, as ResolvePair specifies. |
| World.ECSWorld.Respond | engine/ecs_world.cpp:210-261 | The store becomes the Respond of the pair. |
| World.ECSWorld.MarkResolve | engine/ecs_world.cpp:276-278 | The pair is marked. It is resolved only when the mark is new and both sides are colliders, which keeps the pass invariant. |
| World.ECSWorld.HugeAgainstAll | engine/ecs_world.cpp:275-279 | One big body is marked against every collider of the query. |
| World.ECSWorld.PassA | engine/ecs_world.cpp:265-281 | Every active big body is marked against every collider, and the pass invariant holds. |
| World.ECSWorld.PassB | engine/ecs_world.cpp:284-325 | Every id in a cell of the entity's velocity-swept span is marked against it, and the pass invariant holds. |
| World.ECSWorld.PassBSpan | engine/ecs_world.cpp:308-309 | The cell loops mark every cell of the span. |
| World.ECSWorld.PassBColumn | engine/ecs_world.cpp:309 | The inner loop marks every cell of the column. |
| World.ECSWorld.PassBCell | engine/ecs_world.cpp:310-324 | One cell is skipped when absent. Otherwise every listed id is marked, even a dead one, and colliders are resolved. |
| World.ECSWorld.CollisionSystem | engine/ecs_world.cpp:135-328 | The pass replays its resolved pairs, each pair at most once, and every other new key names a pair that is not two colliders. Once an active collider has been visited, every big body has been tried against every collider. Every active collider has a sweep record: its entity as replayed from a prefix of the log, so its state at some point of the pass (the body takes it as the collider's Pass B begins). Unless its centre is NaN, every id the grid lists in a cell of its swept span has been tried against it. |
| World.ECSWorld.CollideOne | engine/ecs_world.cpp:264-325 | Pass A and then Pass B for one active collider. Its sweep record is added, and every earlier sweep record stays valid as the log and the tested set grow. |
| World.ECSWorld.Update | engine/ecs_world.cpp:439-441 | One tick builds the grid from the old store, then moves, applies gravity, collides and purges. The store is the replay of a duplicate-free log from the moved state, and no event survives. Every active collider has a sweep record, its entity as replayed from some prefix of the log (the body takes it as the collider's Pass B begins). Unless that record's centre is NaN, it has been tried against every id the new grid lists in a cell of its swept span. |
| Engine.Edge | engine/engine.cpp:307-310 | A button is never both pressed and released. Pressed implies down, released implies up, and an edge is reported exactly when the state changed. |
| Engine.InputState.constructor | engine/ecs_world.cpp:32-34 | The input state starts zeroed, which is a settled state. |
| Engine.InputState.Poll | engine/engine.cpp:298-336 | Both mouse buttons and all 350 keys get their edges against the previous state. The previous state becomes the current one, and the state is settled. |
| Engine.InputState.PollKeys | engine/engine.cpp:321-331 | Every key gets its edge against its previous state, and `_prevKeysDown` equals `keysDown` afterwards. |
| Engine.FrameTime | engine/engine.cpp:124-128 | No cap gives frame time 0. A positive cap n gives the positive time t with t * n == 1. |
| Engine.ClampDt | engine/engine.cpp:171 | The dt is never above 0.1 or above the delta, and it is one of the two. |
| Engine.Engine.constructor | engine/engine.h:127-133 | There is no frame cap, VSync is off, dt is 0, no scene is registered, and nothing is current or pending. |
| Engine.Engine.InitInput | engine/ecs_world.cpp:32-34 | The world's init sets a fresh, settled, zeroed input state. |
| Engine.Engine.IsKeyDown | engine/engine.cpp:340-346 | False for a key outside [0, 350) or without input. Otherwise the key's down flag. |
| Engine.Engine.IsKeyPressed | engine/engine.cpp:348-354 | False for a key outside [0, 350) or without input. Otherwise the key's pressed flag. |
| Engine.Engine.IsKeyReleased | engine/engine.cpp:356-362 | False for a key outside [0, 350) or without input. Otherwise the key's released flag. |
| Engine.Engine.KeyQueriesAgree | engine/engine.cpp:321-331 | After a poll, a key is never both pressed and released. Pressed implies down and released implies up. |
| Engine.Engine.IsMouseButtonDown | engine/engine.cpp:366-377 | False outside [0, 2) or without input. Button 0 gives leftDown and button 1 gives rightDown. |
| Engine.Engine.IsMouseButtonPressed | engine/engine.cpp:378-389 | False outside [0, 2) or without input. Button 0 gives leftPressed and button 1 gives rightPressed. |
| Engine.Engine.SetVSync | engine/engine.cpp:118-121 | The VSync flag takes the given value. |
| Engine.Engine.MaxFPS | engine/engine.cpp:123-133 | The frame time is FrameTime(n), and a positive cap turns VSync off. |
| Engine.Engine.RegisterScene | engine/engine.cpp:253-255 | The name becomes a registered scene. |
| Engine.Engine.LoadScene | engine/engine.cpp:257-275 | An unknown name changes nothing. A known one becomes current and pending, and its init runs once now. |
| Engine.Engine.ReloadScene | engine/engine.cpp:277-281 | The current scene is queued only when there is one. |
| Engine.Engine.PerformLoadScene | engine/engine.cpp:283-294 | An unknown name changes nothing. A known one becomes current and its init runs. |
| Engine.Engine.RunFrame | engine/engine.cpp:175-193 | The running part of a tick with a given dt. The input is polled: the mouse and buttons read as given, keys down as given, and every edge taken against the previous state. The world's grid and big-body list come from the old store with dt, the store is the replay of a duplicate-free log from the moved and fallen store, and no event survives. A pending known scene is loaded, and the pending load is cleared. |
| Engine.Engine.Tick | engine/engine.cpp:139-195 | Once the window should close, the tick returns false and leaves the engine, the input state and the world unchanged. Otherwise dt = min(delta, 0.1) and the input is polled: the mouse and both buttons read as given, every key down as given, each button's and each key's pressed and released flags the edge of its new state against its previous one, and the previous state set to the new one. The world's grid and big-body list are built from the old store with that dt, the store is the replay of a duplicate-free log from the moved and fallen store with that dt, and no event survives. A pending known scene is loaded, and the pending load is cleared. The frame cap, VSync and the registered scenes never change. |
| Textures.Load | engine/TextureManager.cpp:4-32 | A cached path returns its id and changes nothing. A failed decode returns 0 and changes nothing. Otherwise the generated id is cached under the path and returned. Old entries are kept. |
| Textures.LoadAgain | engine/TextureManager.cpp:5 | Once a path is loaded, loading it again returns the same id and uploads nothing. |
| Textures.TextureManager.constructor | engine/TextureManager.h:7-8 | The cache starts empty. |
| Textures.TextureManager.LoadTexture | engine/TextureManager.cpp:4-32 | The call behaves as Load on the old cache. Every cached path was uploaded exactly once, so each path is loaded at most once. |

## Left out

- **Floating point.** Floats are reals: there is no rounding, NaN, infinity or `FLT_MAX` arithmetic.
  - `sqrtf`, `cosf` and `sinf` are an abstract `MathLib`. It is only known to square back and to give (1, 0) at angle 0.
  - Rotated vertex layouts are therefore proved for angle 0 only.
- **NaN centres.** A NaN centre is the `nanCentre` flag of an entity record.
  - The grid build skips it, as the source does.
  - The model's `resolvePair` also rejects a pair with a NaN centre, and Pass B skips a NaN entity. In the source, NaN comparisons make the axis-aligned reject pass, and the result is float-specific.
- **Integer widths.**
  - `(int)floorf(...)` of an out-of-range float is undefined in C. The model uses the unbounded floor.
  - Cell coordinates are unbounded integers. `HashCell` wraps them to 32 bits, as `(uint32_t)` does.
  - `long long` keys and `size_t` hashes are unbounded integers and `bv64`.
- **PairHash.** `Hashing.PairHash` is modelled, but it has no contract. It is a function, so equal keys hash equally by construction, and nothing else about it is promised.
- **The axis-aligned early reject for rotated polygons and mixed pairs.** It uses unrotated half extents (engine/ecs_world.cpp:166-172). Its soundness against the shape test is proved for two circles and for two unrotated rectangles only. Rotated polygons, triangles and circle-polygon pairs are not stated.
- **Resolver.RectRejectIsSound:** it asks that A's sides be longer than 1e-8, so that A's edge normals are tried, and that B's sides not be negative.
- **Sat.PolyPolyTranslation, Sat.CirclePolyTranslation, Resolver.ContactPointsFromAToB:** these state only the direction of the MTV. Its length, the overlap, is stated separately by Sat.OutcomeFacts.
- **Resolver.RestitutionLaw, Resolver.ImpulseBalanced:** these are stated for two sides that both have a velocity and a positive inverse mass. A side without one is unchanged, by Resolver.Kick.
- **flecs.** The ECS machinery is an explicit `map` of entity records plus a visit order `order`.
  - System registration, phases, queries and deferred commands are not modelled. The systems run in the fixed order of `ECSWorld.Update`.
  - Event entities are a sequence of `CollisionEvent` values.
- **Scenes.**
  - A scene's init function is recorded by name in `initRuns`. What it does to the world is not modelled.
  - `delete_with<SceneEntity>` is not modelled.
  - As written, `loadScene` runs the init at once and queues the same scene, so the tick runs it a second time.
- **Window, rendering and UI.** These are out of the model:
  - window creation and GLFW callbacks;
  - the sleep and busy-wait frame-cap loop (engine/engine.cpp:48-114, 146-164);
  - `glfwSwapInterval` in `SetVSync`;
  - `render`;
  - the `onInput`, `onUpdate` and `onRender` callbacks;
  - the Camera, Render and Clickable systems and `hoverIt`;
  - the UI layers.

  They are OpenGL, GLFW and user code. The cursor position, button states, key states, the close flag and the measured delta are parameters of `Tick`.
- **Texture upload.** Image decoding and the GL calls of `loadTexture` are parameters (`decodeOk`, `genId`).
  - `getTexture` is declared in engine/TextureManager.h but defined nowhere, so it is not part of this model.
- **Demo programs** in src/ are not part of this model.
