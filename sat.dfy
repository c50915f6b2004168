/** The separating-axis tests of engine/physics.hpp: polygon against polygon, circle
    against polygon and circle against circle. Each either reports that the shapes are
    apart (None) or returns a minimum translation vector, the push that separates them.

    The two polygon tests share one shape of computation: candidate axes are tried one
    after another, the first axis whose projections leave a gap ends the test, and
    otherwise the axis with the smallest depth of overlap is kept. `Scan` is that
    computation as a function over the sequence of candidate axes; the methods are the
    loops of the source, proved equal to it. */
module Sat {
  import opened Wrappers
  import opened Geometry

  /** FLT_MAX, the overlap a test starts from. */
  const FLT_MAX: real := 340282346638528859811704183484516925440.0

  /** 1e-8: an edge normal whose squared length is below this is a degenerate edge. */
  const AXIS_EPS: real := 0.00000001

  /** 1e-6: circle centres closer than this count as coincident. */
  const COINCIDENT_EPS: real := 0.000001

  /** The state of a test: apart, or the smallest overlap so far and its axis. */
  datatype Probe = Separated | Overlapping(overlap: real, axis: Vec2)

  /** Before any axis is tried: overlap FLT_MAX along the zero vector. */
  const Start: Probe := Overlapping(FLT_MAX, Zero)

  /** The two bodies whose projections are compared on each axis. */
  datatype Bodies =
    | Polygons(a: seq<Vec2>, b: seq<Vec2>)
    | CircleAndPolygon(center: Vec2, radius: real, poly: seq<Vec2>)

  predicate WellFormed(p: Bodies) {
    match p
    case Polygons(a, b) => |a| >= 1 && |b| >= 1
    case CircleAndPolygon(_, _, poly) => |poly| >= 1
  }

  /** The two projection intervals on an axis, [lo1, hi1] for the first body (polygon A,
      or the polygon of a circle test) and [lo2, hi2] for the second (polygon B, or the
      circle). */
  datatype Extents = Extents(lo1: real, hi1: real, lo2: real, hi2: real)

  function ExtentsOn(p: Bodies, axis: Vec2): (e: Extents)
    requires WellFormed(p)
    ensures e.lo1 <= e.hi1
    ensures p.Polygons? ==> e.lo2 <= e.hi2
    ensures p.CircleAndPolygon? ==> e.hi2 - e.lo2 == 2.0 * p.radius
  {
    match p
    case Polygons(a, b) =>
      Extents(ProjMin(a, axis), ProjMax(a, axis), ProjMin(b, axis), ProjMax(b, axis))
    case CircleAndPolygon(c, r, poly) =>
      Extents(ProjMin(poly, axis), ProjMax(poly, axis), Dot(c, axis) - r, Dot(c, axis) + r)
  }

  function Min(x: real, y: real): real { if x < y then x else y }

  function Max(x: real, y: real): real { if x > y then x else y }

  /** The intervals leave a gap: this axis separates the bodies. */
  predicate Gap(e: Extents) {
    e.hi1 < e.lo2 || e.hi2 < e.lo1
  }

  /** How far the intervals overlap. */
  function Depth(e: Extents): real {
    Min(e.hi1, e.hi2) - Max(e.lo1, e.lo2)
  }

  /** Two well-formed intervals without a gap overlap by a non-negative depth. */
  lemma DepthNonNegative(e: Extents)
    requires e.lo1 <= e.hi1 && e.lo2 <= e.hi2 && !Gap(e)
    ensures Depth(e) >= 0.0
  {
  }

  /** One axis of a test: a gap ends the test, a strictly smaller depth replaces the
      axis kept so far, and once apart the bodies stay apart. */
  function TestAxis(s: Probe, p: Bodies, axis: Vec2): (t: Probe)
    requires WellFormed(p)
    ensures t.Separated? <==> s.Separated? || Gap(ExtentsOn(p, axis))
    ensures t.Overlapping? ==> t == s || (t.overlap < s.overlap && t == Overlapping(Depth(ExtentsOn(p, axis)), axis))
    ensures t.Overlapping? ==> t.overlap <= s.overlap && t.overlap <= Depth(ExtentsOn(p, axis))
  {
    if s.Separated? then s
    else
      var e := ExtentsOn(p, axis);
      if Gap(e) then Separated
      else if Depth(e) < s.overlap then Overlapping(Depth(e), axis)
      else s
  }

  // ---------------------------------------------------------------------------
  // Candidate axes
  // ---------------------------------------------------------------------------

  /** The normal of edge i of `shape` (from vertex i to the next, wrapping round),
      normalized. */
  function EdgeNormal(shape: seq<Vec2>, i: nat, m: MathLib): Vec2
    requires i < |shape|
  {
    Normalize(Perp(Sub(shape[(i + 1) % |shape|], shape[i])), m)
  }

  /** The edge normals of `shape`, in edge order. */
  function EdgeNormals(shape: seq<Vec2>, m: MathLib): (axes: seq<Vec2>)
    ensures |axes| == |shape|
    ensures forall i :: 0 <= i < |shape| ==> axes[i] == EdgeNormal(shape, i, m)
  {
    seq(|shape|, i requires 0 <= i < |shape| => EdgeNormal(shape, i, m))
  }

  /** An edge normal is tried unless its squared length is below 1e-8. */
  predicate Usable(axis: Vec2) {
    !(LenSq(axis) < AXIS_EPS)
  }

  /** Every tried axis of the sequence is a unit vector. */
  predicate UnitWhenUsable(axes: seq<Vec2>) {
    forall i :: 0 <= i < |axes| && Usable(axes[i]) ==> LenSq(axes[i]) == 1.0
  }

  /** A normalized vector that is not below the degenerate cut-off is a unit vector. */
  lemma UsableIsUnit(a: Vec2, m: MathLib)
    requires ValidMath(m)
    ensures Usable(Normalize(a, m)) ==> LenSq(Normalize(a, m)) == 1.0
  {
    NormalizeSpec(a, m);
  }

  /** The tried edge normals of a shape are unit vectors. */
  lemma EdgeNormalsAreUnit(shape: seq<Vec2>, m: MathLib)
    requires ValidMath(m)
    ensures UnitWhenUsable(EdgeNormals(shape, m))
  {
    forall i | 0 <= i < |shape| && Usable(EdgeNormals(shape, m)[i])
      ensures LenSq(EdgeNormals(shape, m)[i]) == 1.0
    {
      UsableIsUnit(Perp(Sub(shape[(i + 1) % |shape|], shape[i])), m);
    }
  }

  // ---------------------------------------------------------------------------
  // The axis loop
  // ---------------------------------------------------------------------------

  /** The loop over the first k axes: unusable ones are skipped. */
  function Scan(s: Probe, p: Bodies, axes: seq<Vec2>, k: nat): Probe
    requires WellFormed(p) && k <= |axes|
  {
    if k == 0 then s
    else
      var prev := Scan(s, p, axes, k - 1);
      if Usable(axes[k - 1]) then TestAxis(prev, p, axes[k - 1]) else prev
  }

  /** Axis i is tried and its projections leave a gap. */
  predicate SeparatingAxis(p: Bodies, axes: seq<Vec2>, i: nat)
    requires WellFormed(p)
  {
    i < |axes| && Usable(axes[i]) && Gap(ExtentsOn(p, axes[i]))
  }

  /** The probe `t` is the depth on axis i, kept together with that axis. */
  predicate FromAxis(t: Probe, p: Bodies, axes: seq<Vec2>, i: nat)
    requires WellFormed(p)
  {
    i < |axes| && Usable(axes[i]) && t == Overlapping(Depth(ExtentsOn(p, axes[i])), axes[i])
  }

  /** The loop ends apart exactly when it started apart or some tried axis shows a gap. */
  lemma {:induction false} ScanSeparation(s: Probe, p: Bodies, axes: seq<Vec2>, k: nat)
    requires WellFormed(p) && k <= |axes|
    ensures Scan(s, p, axes, k).Separated? <==>
      s.Separated? || exists i :: 0 <= i < k && SeparatingAxis(p, axes, i)
  {
    if k > 0 {
      ScanSeparation(s, p, axes, k - 1);
      if SeparatingAxis(p, axes, k - 1) {
        assert Scan(s, p, axes, k).Separated?;
      }
    }
  }

  /** Once apart, the loop stays apart. */
  lemma {:induction false} ScanStaysSeparated(s: Probe, p: Bodies, axes: seq<Vec2>, j: nat, k: nat)
    requires WellFormed(p) && j <= k <= |axes|
    requires Scan(s, p, axes, j).Separated?
    ensures Scan(s, p, axes, k).Separated?
  {
    if k > j {
      ScanStaysSeparated(s, p, axes, j, k - 1);
    }
  }

  /** When the loop ends overlapping, its overlap is at most the starting one and at most
      the depth on every tried axis, and it is either the start or the depth on one of
      the tried axes, kept together with that axis. */
  lemma {:induction false} ScanMinimum(s: Probe, p: Bodies, axes: seq<Vec2>, k: nat)
    requires WellFormed(p) && k <= |axes|
    requires Scan(s, p, axes, k).Overlapping?
    ensures var t := Scan(s, p, axes, k);
      && s.Overlapping?
      && t.overlap <= s.overlap
      && (forall i :: 0 <= i < k && Usable(axes[i]) ==> t.overlap <= Depth(ExtentsOn(p, axes[i])))
      && (t == s || exists i :: 0 <= i < k && FromAxis(t, p, axes, i))
  {
    if k > 0 {
      ScanMinimum(s, p, axes, k - 1);
      var t := Scan(s, p, axes, k);
      if t != s && t != Scan(s, p, axes, k - 1) {
        assert FromAxis(t, p, axes, k - 1);
      }
    }
  }

  /** What every probe of a test satisfies: when overlapping, its overlap lies in
      [0, FLT_MAX] and it is the start or its axis is a unit vector. */
  predicate InRange(s: Probe) {
    s.Overlapping? ==> 0.0 <= s.overlap <= FLT_MAX && (s == Start || LenSq(s.axis) == 1.0)
  }

  /** Trying a unit axis keeps a probe in range, provided the circle involved, if any,
      has a non-negative radius. */
  lemma TestAxisInRange(s: Probe, p: Bodies, axis: Vec2)
    requires WellFormed(p) && (p.CircleAndPolygon? ==> p.radius >= 0.0)
    requires InRange(s) && LenSq(axis) == 1.0
    ensures InRange(TestAxis(s, p, axis))
  {
    var t := TestAxis(s, p, axis);
    if t.Overlapping? && t != s {
      DepthNonNegative(ExtentsOn(p, axis));
    }
  }

  /** The loop over unit axes keeps a probe in range. */
  lemma {:induction false} ScanInRange(s: Probe, p: Bodies, axes: seq<Vec2>, k: nat)
    requires WellFormed(p) && k <= |axes|
    requires p.CircleAndPolygon? ==> p.radius >= 0.0
    requires UnitWhenUsable(axes) && InRange(s)
    ensures InRange(Scan(s, p, axes, k))
  {
    if k > 0 {
      ScanInRange(s, p, axes, k - 1);
      if Usable(axes[k - 1]) {
        TestAxisInRange(Scan(s, p, axes, k - 1), p, axes[k - 1]);
      }
    }
  }

  // ---------------------------------------------------------------------------
  // The returned translation
  // ---------------------------------------------------------------------------

  /** The kept axis, flipped if needed so that it points along `dir`. */
  function Toward(axis: Vec2, dir: Vec2): (r: Vec2)
    ensures Dot(dir, r) >= 0.0
    ensures LenSq(r) == LenSq(axis)
    ensures r == axis || r == Mul(axis, -1.0)
  {
    MulScales(axis, -1.0, dir);
    if Dot(dir, axis) < 0.0 then Mul(axis, -1.0) else axis
  }

  /** The result of a test: None when apart, otherwise the kept axis pointed along
      `dir` and scaled by the kept overlap. */
  function Outcome(s: Probe, dir: Vec2): (r: Option<Vec2>)
    ensures r.None? <==> s.Separated?
    ensures r.Some? ==> r.value == Mul(Toward(s.axis, dir), s.overlap)
  {
    match s
    case Separated => None
    case Overlapping(o, axis) => Some(Mul(Toward(axis, dir), o))
  }

  /** For a probe in range, the translation is the kept axis pointed along `dir` and
      scaled by the kept overlap, which lies in [0, FLT_MAX]; it points along `dir` too,
      and unless nothing was tried (the zero axis) its length is the overlap. */
  lemma OutcomeFacts(s: Probe, dir: Vec2)
    requires s.Overlapping? && InRange(s)
    ensures Outcome(s, dir).value == Mul(Toward(s.axis, dir), s.overlap)
    ensures 0.0 <= s.overlap <= FLT_MAX
    ensures s == Start || LenSq(Outcome(s, dir).value) == s.overlap * s.overlap
    ensures Dot(Outcome(s, dir).value, dir) >= 0.0
  {
    var t := Toward(s.axis, dir);
    MulScales(t, s.overlap, dir);
    assert Dot(t, dir) == Dot(dir, t);
    NonNegativeProduct(s.overlap, Dot(dir, t));
  }

  // ---------------------------------------------------------------------------
  // Polygon against polygon
  // ---------------------------------------------------------------------------

  /** satPolyPoly's state after the edge normals of A and then of B. */
  function PolyPolyProbe(a: seq<Vec2>, b: seq<Vec2>, m: MathLib): Probe
    requires |a| >= 1 && |b| >= 1
  {
    var p := Polygons(a, b);
    Scan(Scan(Start, p, EdgeNormals(a, m), |a|), p, EdgeNormals(b, m), |b|)
  }

  /** satPolyPoly as a function: the translation pushes B away from A, from A's
      vertex mean towards B's. */
  function PolyPoly(a: seq<Vec2>, b: seq<Vec2>, m: MathLib): Option<Vec2>
    requires |a| >= 1 && |b| >= 1
  {
    Outcome(PolyPolyProbe(a, b, m), Sub(Centroid(b), Centroid(a)))
  }

  /** satPolyPoly returns false exactly when some tried edge normal of A or B
      separates the projections. */
  lemma PolyPolySeparation(a: seq<Vec2>, b: seq<Vec2>, m: MathLib)
    requires |a| >= 1 && |b| >= 1
    ensures PolyPoly(a, b, m).None? <==>
      (exists i :: 0 <= i < |a| && SeparatingAxis(Polygons(a, b), EdgeNormals(a, m), i)) ||
      (exists i :: 0 <= i < |b| && SeparatingAxis(Polygons(a, b), EdgeNormals(b, m), i))
  {
    var p := Polygons(a, b);
    ScanSeparation(Start, p, EdgeNormals(a, m), |a|);
    ScanSeparation(Scan(Start, p, EdgeNormals(a, m), |a|), p, EdgeNormals(b, m), |b|);
  }

  /** On success, satPolyPoly keeps an overlap no larger than the depth on any tried
      edge normal of A or B, and that overlap is FLT_MAX along the zero vector (no edge
      tried) or the depth on one tried normal, kept with that normal. */
  lemma PolyPolyMinimum(a: seq<Vec2>, b: seq<Vec2>, m: MathLib)
    requires |a| >= 1 && |b| >= 1
    ensures var s := PolyPolyProbe(a, b, m);
      var p := Polygons(a, b);
      var na := EdgeNormals(a, m);
      var nb := EdgeNormals(b, m);
      PolyPoly(a, b, m).Some? ==> (
        && (forall i :: 0 <= i < |a| && Usable(na[i]) ==> s.overlap <= Depth(ExtentsOn(p, na[i])))
        && (forall i :: 0 <= i < |b| && Usable(nb[i]) ==> s.overlap <= Depth(ExtentsOn(p, nb[i])))
        && (s == Start || (exists i :: 0 <= i < |a| && FromAxis(s, p, na, i)) ||
            (exists i :: 0 <= i < |b| && FromAxis(s, p, nb, i))))
  {
    if PolyPoly(a, b, m).None? {
      return;
    }
    var p := Polygons(a, b);
    var s1 := Scan(Start, p, EdgeNormals(a, m), |a|);
    if s1.Separated? {
      ScanStaysSeparated(s1, p, EdgeNormals(b, m), 0, |b|);
    }
    ScanMinimum(Start, p, EdgeNormals(a, m), |a|);
    ScanMinimum(s1, p, EdgeNormals(b, m), |b|);
  }

  /** The probe satPolyPoly ends with keeps, when overlapping, an overlap in
      [0, FLT_MAX] along the zero vector or a unit axis. */
  lemma PolyPolyProbeRange(a: seq<Vec2>, b: seq<Vec2>, m: MathLib)
    requires ValidMath(m) && |a| >= 1 && |b| >= 1
    ensures InRange(PolyPolyProbe(a, b, m))
  {
    var p := Polygons(a, b);
    EdgeNormalsAreUnit(a, m);
    EdgeNormalsAreUnit(b, m);
    ScanInRange(Start, p, EdgeNormals(a, m), |a|);
    ScanInRange(Scan(Start, p, EdgeNormals(a, m), |a|), p, EdgeNormals(b, m), |b|);
  }

  /** On success, satPolyPoly's translation points from A's vertex mean towards B's. */
  lemma PolyPolyTranslation(a: seq<Vec2>, b: seq<Vec2>, m: MathLib)
    requires ValidMath(m) && |a| >= 1 && |b| >= 1
    ensures PolyPoly(a, b, m).Some? ==> Dot(PolyPoly(a, b, m).value, Sub(Centroid(b), Centroid(a))) >= 0.0
  {
    if PolyPoly(a, b, m).None? {
      return;
    }
    var s := PolyPolyProbe(a, b, m);
    PolyPolyProbeRange(a, b, m);
    OutcomeFacts(s, Sub(Centroid(b), Centroid(a)));
  }

  // ---------------------------------------------------------------------------
  // Circle against polygon
  // ---------------------------------------------------------------------------

  function DistSq(c: Vec2, v: Vec2): real {
    LenSq(Sub(c, v))
  }

  /** The index of the first of the first k vertices nearest to `c`. */
  function Nearest(c: Vec2, vs: seq<Vec2>, k: nat): (i: nat)
    requires 1 <= k <= |vs|
    ensures i < k
    ensures forall j :: 0 <= j < k ==> DistSq(c, vs[i]) <= DistSq(c, vs[j])
    ensures forall j :: 0 <= j < i ==> DistSq(c, vs[i]) < DistSq(c, vs[j])
  {
    if k == 1 then 0
    else
      var prev := Nearest(c, vs, k - 1);
      if DistSq(c, vs[k - 1]) < DistSq(c, vs[prev]) then k - 1 else prev
  }

  /** The extra axis of satCirclePoly: from the nearest vertex to the circle's centre. */
  function VertexAxis(c: Vec2, poly: seq<Vec2>, m: MathLib): Vec2
    requires |poly| >= 1
  {
    Normalize(Sub(c, poly[Nearest(c, poly, |poly|)]), m)
  }

  /** The vertex axis is tried when its squared length is above 1e-8. */
  predicate VertexAxisTried(axis: Vec2) {
    LenSq(axis) > AXIS_EPS
  }

  /** satCirclePoly's state after the polygon's edge normals and the vertex axis. */
  function CirclePolyProbe(c: Vec2, r: real, poly: seq<Vec2>, m: MathLib): Probe
    requires |poly| >= 1
  {
    var p := CircleAndPolygon(c, r, poly);
    var s := Scan(Start, p, EdgeNormals(poly, m), |poly|);
    var axis := VertexAxis(c, poly, m);
    if VertexAxisTried(axis) then TestAxis(s, p, axis) else s
  }

  /** satCirclePoly as a function: the translation points from the polygon's vertex
      mean towards the circle's centre. */
  function CirclePoly(c: Vec2, r: real, poly: seq<Vec2>, m: MathLib): Option<Vec2>
    requires |poly| >= 1
  {
    Outcome(CirclePolyProbe(c, r, poly, m), Sub(c, Centroid(poly)))
  }

  /** satCirclePoly returns false exactly when a tried edge normal or the tried vertex
      axis separates the polygon's projection from the circle's. */
  lemma CirclePolySeparation(c: Vec2, r: real, poly: seq<Vec2>, m: MathLib)
    requires |poly| >= 1
    ensures var p := CircleAndPolygon(c, r, poly);
      var va := VertexAxis(c, poly, m);
      CirclePoly(c, r, poly, m).None? <==>
        (exists i :: 0 <= i < |poly| && SeparatingAxis(p, EdgeNormals(poly, m), i)) ||
        (VertexAxisTried(va) && Gap(ExtentsOn(p, va)))
  {
    ScanSeparation(Start, CircleAndPolygon(c, r, poly), EdgeNormals(poly, m), |poly|);
  }

  /** On success, satCirclePoly keeps an overlap no larger than the depth on any tried
      edge normal or on the tried vertex axis, and that overlap is FLT_MAX along the zero
      vector (nothing tried), the depth on one tried edge normal or the depth on the
      vertex axis, kept with its axis. */
  lemma CirclePolyMinimum(c: Vec2, r: real, poly: seq<Vec2>, m: MathLib)
    requires |poly| >= 1
    ensures var s := CirclePolyProbe(c, r, poly, m);
      var p := CircleAndPolygon(c, r, poly);
      var na := EdgeNormals(poly, m);
      var va := VertexAxis(c, poly, m);
      CirclePoly(c, r, poly, m).Some? ==> (
        && (forall i :: 0 <= i < |poly| && Usable(na[i]) ==> s.overlap <= Depth(ExtentsOn(p, na[i])))
        && (VertexAxisTried(va) ==> s.overlap <= Depth(ExtentsOn(p, va)))
        && (s == Start || (exists i :: 0 <= i < |poly| && FromAxis(s, p, na, i)) ||
            (VertexAxisTried(va) && s == Overlapping(Depth(ExtentsOn(p, va)), va))))
  {
    if CirclePoly(c, r, poly, m).None? {
      return;
    }
    ScanMinimum(Start, CircleAndPolygon(c, r, poly), EdgeNormals(poly, m), |poly|);
  }

  /** The probe satCirclePoly ends with keeps, for a non-negative radius and when
      overlapping, an overlap in [0, FLT_MAX] along the zero vector or a unit axis. */
  lemma CirclePolyProbeRange(c: Vec2, r: real, poly: seq<Vec2>, m: MathLib)
    requires ValidMath(m) && |poly| >= 1 && r >= 0.0
    ensures InRange(CirclePolyProbe(c, r, poly, m))
  {
    var p := CircleAndPolygon(c, r, poly);
    var va := VertexAxis(c, poly, m);
    EdgeNormalsAreUnit(poly, m);
    ScanInRange(Start, p, EdgeNormals(poly, m), |poly|);
    if VertexAxisTried(va) {
      UsableIsUnit(Sub(c, poly[Nearest(c, poly, |poly|)]), m);
      TestAxisInRange(Scan(Start, p, EdgeNormals(poly, m), |poly|), p, va);
    }
  }

  /** On success with a non-negative radius, satCirclePoly's translation points from
      the polygon's vertex mean towards the circle's centre. */
  lemma CirclePolyTranslation(c: Vec2, r: real, poly: seq<Vec2>, m: MathLib)
    requires ValidMath(m) && |poly| >= 1 && r >= 0.0
    ensures CirclePoly(c, r, poly, m).Some? ==> Dot(CirclePoly(c, r, poly, m).value, Sub(c, Centroid(poly))) >= 0.0
  {
    if CirclePoly(c, r, poly, m).None? {
      return;
    }
    var s := CirclePolyProbe(c, r, poly, m);
    CirclePolyProbeRange(c, r, poly, m);
    OutcomeFacts(s, Sub(c, Centroid(poly)));
  }

  // ---------------------------------------------------------------------------
  // Circle against circle
  // ---------------------------------------------------------------------------

  /** satCircleCircle: overlapping exactly when the squared centre distance is below the
      squared sum of the radii; coincident centres give (r1 + r2, 0), otherwise the
      translation is the unit vector from c1 to c2 scaled by r1 + r2 - dist. */
  function CircleCircle(c1: Vec2, r1: real, c2: Vec2, r2: real, m: MathLib): (r: Option<Vec2>)
    ensures r.Some? <==> LenSq(Sub(c2, c1)) < (r1 + r2) * (r1 + r2)
    ensures r.Some? && m.sqrt(LenSq(Sub(c2, c1))) < COINCIDENT_EPS ==> r.value == Vec2(r1 + r2, 0.0)
    ensures r.Some? && m.sqrt(LenSq(Sub(c2, c1))) >= COINCIDENT_EPS ==>
      r.value == Mul(Mul(Sub(c2, c1), 1.0 / m.sqrt(LenSq(Sub(c2, c1)))), r1 + r2 - m.sqrt(LenSq(Sub(c2, c1))))
  {
    var d := Sub(c2, c1);
    if LenSq(d) >= (r1 + r2) * (r1 + r2) then None
    else if m.sqrt(LenSq(d)) < COINCIDENT_EPS then Some(Vec2(r1 + r2, 0.0))
    else Some(Mul(Mul(d, 1.0 / m.sqrt(LenSq(d))), r1 + r2 - m.sqrt(LenSq(d))))
  }

  /** With non-negative radii and centres at least 1e-6 apart, the translation of
      satCircleCircle points from c1 to c2 and its length is the overlap
      r1 + r2 - dist, which is positive. */
  lemma CircleCircleTranslation(c1: Vec2, r1: real, c2: Vec2, r2: real, m: MathLib)
    requires ValidMath(m) && r1 + r2 >= 0.0
    ensures var o := CircleCircle(c1, r1, c2, r2, m);
      var dist := m.sqrt(LenSq(Sub(c2, c1)));
      o.Some? && dist >= COINCIDENT_EPS ==> (
        && 0.0 < r1 + r2 - dist
        && LenSq(o.value) == (r1 + r2 - dist) * (r1 + r2 - dist)
        && Dot(o.value, Sub(c2, c1)) > 0.0)
  {
    var d := Sub(c2, c1);
    var dist := m.sqrt(LenSq(d));
    if CircleCircle(c1, r1, c2, r2, m).None? || dist < COINCIDENT_EPS {
      return;
    }
    if r1 + r2 <= dist {
      SquareMonotone(r1 + r2, dist);
      assert false;
    }
    var n := Mul(d, 1.0 / dist);
    ScaledToUnit(d, dist);
    MulScales(n, r1 + r2 - dist, d);
    PositiveProduct(r1 + r2 - dist, Dot(n, d));
  }

  /** d divided by its (positive) length is a unit vector pointing along d. */
  lemma ScaledToUnit(d: Vec2, l: real)
    requires l > 0.0 && l * l == LenSq(d)
    ensures LenSq(Mul(d, 1.0 / l)) == 1.0 && Dot(Mul(d, 1.0 / l), d) > 0.0
  {
    InverseSquare(l);
    InverseTimesSquare(l);
    MulScales(d, 1.0 / l, d);
  }

  // ---------------------------------------------------------------------------
  // The loops of the source
  // ---------------------------------------------------------------------------

  /** Both projection intervals on one axis (the projectPoly calls of a test). */
  method MeasureAxis(p: Bodies, axis: Vec2) returns (e: Extents)
    requires WellFormed(p)
    ensures e == ExtentsOn(p, axis)
  {
    match p
    case Polygons(a, b) =>
      var minA, maxA := ProjectPoly(a, axis);
      var minB, maxB := ProjectPoly(b, axis);
      e := Extents(minA, maxA, minB, maxB);
    case CircleAndPolygon(c, r, poly) =>
      var minP, maxP := ProjectPoly(poly, axis);
      var projC := Dot(c, axis);
      e := Extents(minP, maxP, projC - r, projC + r);
  }

  /** One tried axis: the projections, the gap check and the update of the smallest
      overlap. */
  method TryAxis(s: Probe, p: Bodies, axis: Vec2) returns (t: Probe)
    requires WellFormed(p) && s.Overlapping?
    ensures t == TestAxis(s, p, axis)
  {
    var e := MeasureAxis(p, axis);
    if e.hi1 < e.lo2 || e.hi2 < e.lo1 {
      return Separated;
    }
    var o := Min(e.hi1, e.hi2) - Max(e.lo1, e.lo2);
    t := if o < s.overlap then Overlapping(o, axis) else s;
  }

  /** The edge loop (satPolyPoly's testAxes, and the first loop of satCirclePoly): tries
      the normal of every non-degenerate edge of `shape` and stops at a gap. */
  method TestAxes(s0: Probe, p: Bodies, shape: seq<Vec2>, m: MathLib) returns (s: Probe)
    requires WellFormed(p) && s0.Overlapping?
    ensures s == Scan(s0, p, EdgeNormals(shape, m), |shape|)
  {
    ghost var axes := EdgeNormals(shape, m);
    s := s0;
    var i := 0;
    while i < |shape|
      invariant 0 <= i <= |shape|
      invariant s == Scan(s0, p, axes, i)
      invariant s.Overlapping?
    {
      s := TestEdge(s, p, shape, i, m);
      if s.Separated? {
        ScanStaysSeparated(s0, p, axes, i + 1, |shape|);
        return;
      }
      i := i + 1;
    }
  }

  /** One pass of the axis loop of TestAxes: the normal of edge i, tried when usable. */
  method TestEdge(s: Probe, p: Bodies, shape: seq<Vec2>, i: nat, m: MathLib) returns (t: Probe)
    requires WellFormed(p) && s.Overlapping? && i < |shape|
    ensures t == if Usable(EdgeNormal(shape, i, m)) then TestAxis(s, p, EdgeNormal(shape, i, m)) else s
  {
    var axis := Normalize(Perp(Sub(shape[(i + 1) % |shape|], shape[i])), m);
    t := s;
    if !(LenSq(axis) < AXIS_EPS) {
      t := TryAxis(s, p, axis);
    }
  }

  /** satPolyPoly. */
  method SatPolyPoly(vertsA: seq<Vec2>, vertsB: seq<Vec2>, m: MathLib) returns (r: Option<Vec2>)
    requires |vertsA| >= 1 && |vertsB| >= 1
    ensures r == PolyPoly(vertsA, vertsB, m)
  {
    var p := Polygons(vertsA, vertsB);
    var s := TestAxes(Start, p, vertsA, m);
    if s.Separated? {
      ScanStaysSeparated(s, p, EdgeNormals(vertsB, m), 0, |vertsB|);
      return None;
    }
    s := TestAxes(s, p, vertsB, m);
    if s.Separated? {
      return None;
    }
    var centerA := ComputeCentroid(vertsA);
    var centerB := ComputeCentroid(vertsB);
    var dir := Sub(centerB, centerA);
    var axis := s.axis;
    if Dot(dir, axis) < 0.0 {
      axis := Mul(axis, -1.0);
    }
    r := Some(Mul(axis, s.overlap));
  }

  /** The nearest-vertex loop of satCirclePoly. */
  method NearestVertex(center: Vec2, verts: seq<Vec2>) returns (closest: Vec2)
    requires |verts| >= 1
    ensures closest == verts[Nearest(center, verts, |verts|)]
  {
    closest := verts[0];
    var minDst := LenSq(Sub(center, verts[0]));
    var i := 1;
    while i < |verts|
      invariant 1 <= i <= |verts|
      invariant closest == verts[Nearest(center, verts, i)]
      invariant minDst == DistSq(center, closest)
    {
      var d := LenSq(Sub(center, verts[i]));
      if d < minDst {
        minDst := d;
        closest := verts[i];
      }
      i := i + 1;
    }
  }

  /** satCirclePoly. */
  method SatCirclePoly(center: Vec2, radius: real, verts: seq<Vec2>, m: MathLib) returns (r: Option<Vec2>)
    requires |verts| >= 1
    ensures r == CirclePoly(center, radius, verts, m)
  {
    var p := CircleAndPolygon(center, radius, verts);
    var s := TestAxes(Start, p, verts, m);
    if s.Separated? {
      return None;
    }
    var closestVert := NearestVertex(center, verts);
    var axis := Normalize(Sub(center, closestVert), m);
    if LenSq(axis) > AXIS_EPS {
      s := TryAxis(s, p, axis);
      if s.Separated? {
        return None;
      }
    }
    var centerPoly := ComputeCentroid(verts);
    var dir := Sub(center, centerPoly);
    var smallestAxis := s.axis;
    if Dot(dir, smallestAxis) < 0.0 {
      smallestAxis := Mul(smallestAxis, -1.0);
    }
    r := Some(Mul(smallestAxis, s.overlap));
  }
}
