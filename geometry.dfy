/** The vector helpers, vertex generation and polygon projection of the SAT kernel
    (engine/physics.hpp). Coordinates are reals; the C library's square root and the
    cosine/sine of `rotate` are an oracle, `MathLib`, of which only the defining
    properties are known. */
module Geometry {
  import opened Components

  datatype Vec2 = Vec2(x: real, y: real)

  const Zero: Vec2 := Vec2(0.0, 0.0)

  /** 1e-8: the length below which `normalize` gives the zero vector. */
  const NORMALIZE_EPS: real := 0.00000001

  /** The conversion factor from degrees to radians used by `rotate`. */
  const DEG_TO_RAD: real := 0.0174532925

  /** sqrtf, and the pair (cosf, sinf) of an angle in radians. */
  datatype MathLib = MathLib(sqrt: real -> real, cosSin: real -> (real, real))

  ghost predicate ValidMath(m: MathLib) {
    && (forall v: real :: 0.0 <= v ==> 0.0 <= m.sqrt(v) && m.sqrt(v) * m.sqrt(v) == v)
    && m.cosSin(0.0) == (1.0, 0.0)
  }

  // ---------------------------------------------------------------------------
  // Vector helpers
  // ---------------------------------------------------------------------------

  /** dot: the dot product. */
  function Dot(a: Vec2, b: Vec2): real {
    a.x * b.x + a.y * b.y
  }

  /** The dot product does not depend on the order of its operands, and a vector with
      itself gives its squared length. */
  lemma DotSymmetric(a: Vec2, b: Vec2)
    ensures Dot(a, b) == Dot(b, a)
    ensures Dot(a, a) == LenSq(a)
  {
  }

  function LenSq(a: Vec2): (r: real)
    ensures r >= 0.0
  {
    a.x * a.x + a.y * a.y
  }

  function Sub(a: Vec2, b: Vec2): (r: Vec2)
    ensures r == Zero <==> a == b
  {
    Vec2(a.x - b.x, a.y - b.y)
  }

  function Add(a: Vec2, b: Vec2): (r: Vec2)
    ensures Sub(r, b) == a
  {
    Vec2(a.x + b.x, a.y + b.y)
  }

  function Mul(a: Vec2, s: real): Vec2 {
    Vec2(a.x * s, a.y * s)
  }

  /** Scaling by s scales the squared length by s*s and every dot product by s. */
  lemma MulScales(a: Vec2, s: real, d: Vec2)
    ensures LenSq(Mul(a, s)) == s * s * LenSq(a)
    ensures Dot(Mul(a, s), d) == s * Dot(a, d)
  {
  }

  /** The normal of `a`, turned a quarter to the left. */
  function Perp(a: Vec2): (r: Vec2)
    ensures Dot(r, a) == 0.0
    ensures LenSq(r) == LenSq(a)
  {
    Vec2(-a.y, a.x)
  }

  /** normalize: the zero vector when the length is at most 1e-8, otherwise `a` divided
      by its length. */
  function Normalize(a: Vec2, m: MathLib): Vec2 {
    if m.sqrt(LenSq(a)) > NORMALIZE_EPS then Mul(a, 1.0 / m.sqrt(LenSq(a))) else Zero
  }

  /** `Normalize` gives the zero vector for a length of at most 1e-8 and otherwise a
      unit vector pointing the same way as `a`: parallel to it and with a positive dot
      product. */
  lemma NormalizeSpec(a: Vec2, m: MathLib)
    requires ValidMath(m)
    ensures m.sqrt(LenSq(a)) <= NORMALIZE_EPS ==> Normalize(a, m) == Zero
    ensures m.sqrt(LenSq(a)) > NORMALIZE_EPS ==>
      var r := Normalize(a, m);
      LenSq(r) == 1.0 && Dot(r, a) > 0.0 && r.x * a.y == r.y * a.x
  {
    if m.sqrt(LenSq(a)) > NORMALIZE_EPS {
      InverseSquare(m.sqrt(LenSq(a)));
      InverseTimesSquare(m.sqrt(LenSq(a)));
      MulScales(a, 1.0 / m.sqrt(LenSq(a)), a);
    }
  }

  /** A vector whose squared length is at least 1e-8 (the cut-off the separating-axis
      tests use for edges) is longer than 1e-8, so normalizing it gives a unit vector. */
  lemma NormalizeLongVector(a: Vec2, m: MathLib)
    requires ValidMath(m)
    requires LenSq(a) >= 0.00000001
    ensures LenSq(Normalize(a, m)) == 1.0
  {
    NormalizeSpec(a, m);
    if m.sqrt(LenSq(a)) <= NORMALIZE_EPS {
      SquareMonotone(m.sqrt(LenSq(a)), NORMALIZE_EPS);
      assert false;
    }
  }

  /** rotate: the vector turned by `angleDeg` degrees. */
  function Rotate(v: Vec2, angleDeg: real, m: MathLib): (r: Vec2)
    requires ValidMath(m)
    ensures angleDeg == 0.0 ==> r == v
  {
    var cs := m.cosSin(angleDeg * DEG_TO_RAD);
    Vec2(v.x * cs.0 - v.y * cs.1, v.x * cs.1 + v.y * cs.0)
  }

  // ---------------------------------------------------------------------------
  // Shape vertices
  // ---------------------------------------------------------------------------

  function VertexCount(k: ColliderType): nat {
    match k
    case Rect => 4
    case Triangle => 3
    case Circle => 0
  }

  /** The world centre of a collider: its transform position plus its offset. */
  function Centre(t: Transform, c: Collider): Vec2 {
    Vec2(t.x + c.offsetX, t.y + c.offsetY)
  }

  /** getVertices: the corners of a rectangle or triangle, rotated by the transform's angle
      about the collider's centre; no vertices for a circle. At angle 0 the rectangle's
      corners are the centre plus (-hw,-hh), (hw,-hh), (hw,hh), (-hw,hh) in that order, and
      the triangle's the centre plus (0,-hh), (-hw,hh), (hw,hh). */
  function GetVertices(t: Transform, c: Collider, m: MathLib): (vs: seq<Vec2>)
    requires ValidMath(m)
    ensures |vs| == VertexCount(c.kind)
    ensures t.angle == 0.0 && c.kind == Rect ==>
      var o := Centre(t, c);
      var hw := c.width * 0.5;
      var hh := c.height * 0.5;
      vs == [Vec2(o.x - hw, o.y - hh), Vec2(o.x + hw, o.y - hh), Vec2(o.x + hw, o.y + hh), Vec2(o.x - hw, o.y + hh)]
    ensures t.angle == 0.0 && c.kind == Triangle ==>
      var o := Centre(t, c);
      var hw := c.width * 0.5;
      var hh := c.height * 0.5;
      vs == [Vec2(o.x, o.y - hh), Vec2(o.x - hw, o.y + hh), Vec2(o.x + hw, o.y + hh)]
  {
    var o := Centre(t, c);
    var hw := c.width * 0.5;
    var hh := c.height * 0.5;
    match c.kind
    case Rect =>
      [ Add(o, Rotate(Vec2(-hw, -hh), t.angle, m)),
        Add(o, Rotate(Vec2(hw, -hh), t.angle, m)),
        Add(o, Rotate(Vec2(hw, hh), t.angle, m)),
        Add(o, Rotate(Vec2(-hw, hh), t.angle, m)) ]
    case Triangle =>
      [ Add(o, Rotate(Vec2(0.0, -hh), t.angle, m)),
        Add(o, Rotate(Vec2(-hw, hh), t.angle, m)),
        Add(o, Rotate(Vec2(hw, hh), t.angle, m)) ]
    case Circle => []
  }

  // ---------------------------------------------------------------------------
  // Projection onto an axis
  // ---------------------------------------------------------------------------

  /** The smallest projection of the vertices onto `axis`: a lower bound attained by a vertex. */
  function ProjMin(vs: seq<Vec2>, axis: Vec2): (lo: real)
    requires |vs| >= 1
    ensures forall i :: 0 <= i < |vs| ==> lo <= Dot(vs[i], axis)
    ensures exists i :: 0 <= i < |vs| && lo == Dot(vs[i], axis)
    decreases |vs|
  {
    if |vs| == 1 then Dot(vs[0], axis)
    else
      var rest := ProjMin(vs[..|vs| - 1], axis);
      var p := Dot(vs[|vs| - 1], axis);
      assert forall i :: 0 <= i < |vs| - 1 ==> vs[..|vs| - 1][i] == vs[i];
      if p < rest then p else rest
  }

  /** The largest projection of the vertices onto `axis`: an upper bound attained by a vertex. */
  function ProjMax(vs: seq<Vec2>, axis: Vec2): (hi: real)
    requires |vs| >= 1
    ensures forall i :: 0 <= i < |vs| ==> Dot(vs[i], axis) <= hi
    ensures exists i :: 0 <= i < |vs| && hi == Dot(vs[i], axis)
    decreases |vs|
  {
    if |vs| == 1 then Dot(vs[0], axis)
    else
      var rest := ProjMax(vs[..|vs| - 1], axis);
      var p := Dot(vs[|vs| - 1], axis);
      assert forall i :: 0 <= i < |vs| - 1 ==> vs[..|vs| - 1][i] == vs[i];
      if p > rest then p else rest
  }

  /** projectPoly: the interval the vertices cover on `axis`. */
  method ProjectPoly(verts: seq<Vec2>, axis: Vec2) returns (minOut: real, maxOut: real)
    requires |verts| >= 1
    ensures minOut <= maxOut
    ensures forall i :: 0 <= i < |verts| ==> minOut <= Dot(verts[i], axis) <= maxOut
    ensures exists i :: 0 <= i < |verts| && minOut == Dot(verts[i], axis)
    ensures exists i :: 0 <= i < |verts| && maxOut == Dot(verts[i], axis)
    ensures minOut == ProjMin(verts, axis) && maxOut == ProjMax(verts, axis)
  {
    minOut := Dot(verts[0], axis);
    maxOut := minOut;
    var i := 1;
    while i < |verts|
      invariant 1 <= i <= |verts|
      invariant minOut == ProjMin(verts[..i], axis)
      invariant maxOut == ProjMax(verts[..i], axis)
    {
      var p := Dot(verts[i], axis);
      assert verts[..i + 1][..i] == verts[..i];
      if p < minOut { minOut := p; }
      if p > maxOut { maxOut := p; }
      i := i + 1;
    }
    assert verts[..i] == verts;
  }

  // ---------------------------------------------------------------------------
  // Centroid
  // ---------------------------------------------------------------------------

  /** The sum of the vertices, added in order. */
  function VertexSum(vs: seq<Vec2>): Vec2
    decreases |vs|
  {
    if vs == [] then Zero else Add(VertexSum(vs[..|vs| - 1]), vs[|vs| - 1])
  }

  /** The mean of the vertices. */
  function Centroid(vs: seq<Vec2>): Vec2
    requires |vs| >= 1
  {
    Mul(VertexSum(vs), 1.0 / |vs| as real)
  }

  /** The centroid loop of satPolyPoly and satCirclePoly. */
  method ComputeCentroid(verts: seq<Vec2>) returns (c: Vec2)
    requires |verts| >= 1
    ensures c == Centroid(verts)
  {
    c := Zero;
    var i := 0;
    while i < |verts|
      invariant 0 <= i <= |verts|
      invariant c == VertexSum(verts[..i])
    {
      assert verts[..i + 1][..i] == verts[..i];
      c := Add(c, verts[i]);
      i := i + 1;
    }
    assert verts[..i] == verts;
    c := Mul(c, 1.0 / |verts| as real);
  }

  // ---------------------------------------------------------------------------
  // Arithmetic helpers
  // ---------------------------------------------------------------------------

  lemma PositiveProduct(a: real, b: real)
    requires a > 0.0 && b > 0.0
    ensures a * b > 0.0
  {
  }

  lemma NonNegativeProduct(a: real, b: real)
    requires a >= 0.0 && b >= 0.0
    ensures a * b >= 0.0
  {
    if a > 0.0 && b > 0.0 { PositiveProduct(a, b); }
  }

  lemma ZeroProduct(a: real, b: real)
    requires a * b == 0.0
    ensures a == 0.0 || b == 0.0
  {
    if a != 0.0 {
      assert b == (a * b) / a;
    }
  }

  /** For a non-negative v, the root of v*v is v itself. */
  lemma RootOfSquare(m: MathLib, v: real)
    requires ValidMath(m) && v >= 0.0
    ensures m.sqrt(v * v) == v
  {
    assert m.sqrt(v * v) >= 0.0 && m.sqrt(v * v) * m.sqrt(v * v) == v * v;
    assert (m.sqrt(v * v) - v) * (m.sqrt(v * v) + v) == 0.0;
    ZeroProduct(m.sqrt(v * v) - v, m.sqrt(v * v) + v);
  }

  lemma SquareMonotone(l: real, e: real)
    requires 0.0 <= l <= e
    ensures l * l <= e * e
  {
    assert l * l <= e * l;
  }

  lemma InverseSquare(l: real)
    requires l != 0.0
    ensures (1.0 / l) * (1.0 / l) * (l * l) == 1.0
  {
    assert (1.0 / l) * l == 1.0;
  }

  lemma InverseTimesSquare(l: real)
    requires l > 0.0
    ensures (1.0 / l) * (l * l) > 0.0
  {
    assert (1.0 / l) * l == 1.0;
  }
}
