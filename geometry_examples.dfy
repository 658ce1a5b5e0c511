/** The area computations of src/mrtools/geometry.py on the shapes its unit tests measure,
    stated for every size and position of the shape: the tests' squares, triangle and
    surface with a hole are instances. Each area statement holds for every `norm` that is
    the Euclidean length. */
module GeometryExamples {
  import opened Wrappers
  import opened Geometry

  /** A length is fixed by its square: `norm` returns the non-negative root. */
  lemma LengthIs(norm: Point -> real, n: Point, len: real)
    requires IsNorm(norm) && 0.0 <= len && len * len == Norm2(n)
    ensures norm(n) == len
  {
    SquareRootUnique(norm(n), len);
  }

  /** A ring whose normal is `n`, of length `len`, has half that length as its area. */
  lemma AreaFromNormal(ring: seq<Point>, norm: Point -> real, n: Point, len: real)
    requires NewellNormal(ring) == n
    requires IsNorm(norm) && 0.0 <= len && len * len == Norm2(n)
    ensures RingArea(ring, norm) == 0.5 * len
  {
    LengthIs(norm, n, len);
  }

  /** The sum over the edges of the path a, b: its one edge. */
  lemma PathSumTwo(a: Point, b: Point)
    ensures PathSum([a, b], NewellTerm) == Add(Origin, NewellTerm(a, b))
  {
    assert [a, b][..1] == [a];
  }

  /** Newell's normal of a triangle, edge by edge. */
  lemma NormalOfTriangle(a: Point, b: Point, c: Point)
    ensures NewellNormal([a, b, c])
         == Add(Add(Add(Origin, NewellTerm(a, b)), NewellTerm(b, c)), NewellTerm(c, a))
  {
    var s := [a, b, c];
    assert s[..2] == [a, b];
    PathSumTwo(a, b);
    assert PathSum(s, NewellTerm) == Add(PathSum([a, b], NewellTerm), NewellTerm(b, c));
  }

  /** Newell's normal of a quadrilateral, edge by edge. */
  lemma NormalOfQuad(a: Point, b: Point, c: Point, d: Point)
    ensures NewellNormal([a, b, c, d])
         == Add(Add(Add(Add(Origin, NewellTerm(a, b)), NewellTerm(b, c)), NewellTerm(c, d)), NewellTerm(d, a))
  {
    var s3, s := [a, b, c], [a, b, c, d];
    assert s3[..2] == [a, b];
    assert s[..3] == s3;
    PathSumTwo(a, b);
    assert PathSum(s3, NewellTerm) == Add(PathSum([a, b], NewellTerm), NewellTerm(b, c));
    assert PathSum(s, NewellTerm) == Add(PathSum(s3, NewellTerm), NewellTerm(c, d));
  }

  // ---------------------------------------------------------------------------
  // Rectangles parallel to the XY plane: the unit square, the 10 by 10 square at
  // (85000, 446000), and the 2 by 2 surface with its 1 by 1 hole.

  /** The counter-clockwise rectangle of width `w` and height `h` whose first corner is
      (x0, y0, z). */
  function Rectangle(x0: real, y0: real, z: real, w: real, h: real): (r: seq<Point>)
    ensures |r| == 4
  {
    [Point(x0, y0, z), Point(x0 + w, y0, z), Point(x0 + w, y0 + h, z), Point(x0, y0 + h, z)]
  }

  /** An edge parallel to the X axis contributes to the Z component only. */
  lemma EdgeAlongX(x0: real, x1: real, y: real, z: real)
    ensures NewellTerm(Point(x0, y, z), Point(x1, y, z)) == Point(0.0, 0.0, 2.0 * (x0 - x1) * y)
  {
  }

  /** An edge parallel to the Y axis contributes to the X component only. */
  lemma EdgeAlongY(x: real, y0: real, y1: real, z: real)
    ensures NewellTerm(Point(x, y0, z), Point(x, y1, z)) == Point(2.0 * (y0 - y1) * z, 0.0, 0.0)
  {
  }

  /** Its normal points along Z with twice its area as length, wherever it lies. */
  lemma RectangleNormal(x0: real, y0: real, z: real, w: real, h: real)
    ensures NewellNormal(Rectangle(x0, y0, z, w, h)) == Point(0.0, 0.0, 2.0 * w * h)
  {
    var r := Rectangle(x0, y0, z, w, h);
    NormalOfQuad(r[0], r[1], r[2], r[3]);
    EdgeAlongX(x0, x0 + w, y0, z);
    EdgeAlongY(x0 + w, y0, y0 + h, z);
    EdgeAlongX(x0 + w, x0, y0 + h, z);
    EdgeAlongY(x0, y0 + h, y0, z);
    assert 2.0 * (x0 - (x0 + w)) * y0 + 2.0 * ((x0 + w) - x0) * (y0 + h) == 2.0 * w * h;
  }

  /** Its area is `w * h`: 1 for the unit square, 100 for the 10 by 10 square at
      real-world coordinates. */
  lemma RectangleArea(x0: real, y0: real, z: real, w: real, h: real, norm: Point -> real)
    requires IsNorm(norm) && 0.0 <= w * h
    ensures RingArea(Rectangle(x0, y0, z, w, h), norm) == w * h
  {
    RectangleNormal(x0, y0, z, w, h);
    AreaFromNormal(Rectangle(x0, y0, z, w, h), norm, Point(0.0, 0.0, 2.0 * w * h), 2.0 * w * h);
  }

  // ---------------------------------------------------------------------------
  // Vertical rectangles: the unit squares in the XZ and YZ planes, and the front face of
  // the unit cube.

  /** An edge parallel to the Z axis contributes to the Y component only. */
  lemma EdgeAlongZ(x: real, y: real, z0: real, z1: real)
    ensures NewellTerm(Point(x, y, z0), Point(x, y, z1)) == Point(0.0, 2.0 * (z0 - z1) * x, 0.0)
  {
  }

  /** The rectangle of width `w` along X and height `h` along Z whose first corner is
      (x0, y, z0). */
  function RectangleXZ(x0: real, y: real, z0: real, w: real, h: real): (r: seq<Point>)
    ensures |r| == 4
  {
    [Point(x0, y, z0), Point(x0 + w, y, z0), Point(x0 + w, y, z0 + h), Point(x0, y, z0 + h)]
  }

  /** Its normal points along −Y with twice its area as length, wherever it lies. */
  lemma RectangleXZNormal(x0: real, y: real, z0: real, w: real, h: real)
    ensures NewellNormal(RectangleXZ(x0, y, z0, w, h)) == Point(0.0, -2.0 * w * h, 0.0)
  {
    var r := RectangleXZ(x0, y, z0, w, h);
    NormalOfQuad(r[0], r[1], r[2], r[3]);
    EdgeAlongX(x0, x0 + w, y, z0);
    EdgeAlongZ(x0 + w, y, z0, z0 + h);
    EdgeAlongX(x0 + w, x0, y, z0 + h);
    EdgeAlongZ(x0, y, z0 + h, z0);
    assert 2.0 * (z0 - (z0 + h)) * (x0 + w) + 2.0 * ((z0 + h) - z0) * x0 == -2.0 * w * h;
  }

  /** Its area is `w * h`: 1 for the unit square in the XZ plane and for the cube's front
      face. */
  lemma RectangleXZArea(x0: real, y: real, z0: real, w: real, h: real, norm: Point -> real)
    requires IsNorm(norm) && 0.0 <= w * h
    ensures RingArea(RectangleXZ(x0, y, z0, w, h), norm) == w * h
  {
    RectangleXZNormal(x0, y, z0, w, h);
    AreaFromNormal(RectangleXZ(x0, y, z0, w, h), norm, Point(0.0, -2.0 * w * h, 0.0), 2.0 * w * h);
  }

  /** The rectangle of width `w` along Y and height `h` along Z whose first corner is
      (x, y0, z0). */
  function RectangleYZ(x: real, y0: real, z0: real, w: real, h: real): (r: seq<Point>)
    ensures |r| == 4
  {
    [Point(x, y0, z0), Point(x, y0 + w, z0), Point(x, y0 + w, z0 + h), Point(x, y0, z0 + h)]
  }

  /** Its normal points along X with twice its area as length, wherever it lies. */
  lemma RectangleYZNormal(x: real, y0: real, z0: real, w: real, h: real)
    ensures NewellNormal(RectangleYZ(x, y0, z0, w, h)) == Point(2.0 * w * h, 0.0, 0.0)
  {
    var r := RectangleYZ(x, y0, z0, w, h);
    NormalOfQuad(r[0], r[1], r[2], r[3]);
    EdgeAlongY(x, y0, y0 + w, z0);
    EdgeAlongZ(x, y0 + w, z0, z0 + h);
    EdgeAlongY(x, y0 + w, y0, z0 + h);
    EdgeAlongZ(x, y0, z0 + h, z0);
    assert 2.0 * (y0 - (y0 + w)) * z0 + 2.0 * ((y0 + w) - y0) * (z0 + h) == 2.0 * w * h;
  }

  /** Its area is `w * h`: 1 for the unit square in the YZ plane. */
  lemma RectangleYZArea(x: real, y0: real, z0: real, w: real, h: real, norm: Point -> real)
    requires IsNorm(norm) && 0.0 <= w * h
    ensures RingArea(RectangleYZ(x, y0, z0, w, h), norm) == w * h
  {
    RectangleYZNormal(x, y0, z0, w, h);
    AreaFromNormal(RectangleYZ(x, y0, z0, w, h), norm, Point(2.0 * w * h, 0.0, 0.0), 2.0 * w * h);
  }

  // ---------------------------------------------------------------------------
  // The right triangle with legs 3 and 4.

  /** The right triangle with legs `a` along X and `b` along Y from the origin. */
  function RightTriangle(a: real, b: real): (r: seq<Point>)
    ensures |r| == 3
  {
    [Point(0.0, 0.0, 0.0), Point(a, 0.0, 0.0), Point(0.0, b, 0.0)]
  }

  /** Its normal is (0, 0, a * b) ... */
  lemma RightTriangleNormal(a: real, b: real)
    ensures NewellNormal(RightTriangle(a, b)) == Point(0.0, 0.0, a * b)
  {
    var r := RightTriangle(a, b);
    NormalOfTriangle(r[0], r[1], r[2]);
  }

  /** ... so its area is half the product of the legs: 6 for legs 3 and 4. */
  lemma RightTriangleArea(a: real, b: real, norm: Point -> real)
    requires IsNorm(norm) && 0.0 <= a * b
    ensures RingArea(RightTriangle(a, b), norm) == a * b / 2.0
  {
    RightTriangleNormal(a, b);
    AreaFromNormal(RightTriangle(a, b), norm, Point(0.0, 0.0, a * b), a * b);
  }

  /** The same triangle moved to any position keeps its normal and its area. */
  lemma RightTriangleAnywhere(a: real, b: real, d: Point, norm: Point -> real)
    requires IsNorm(norm) && 0.0 <= a * b
    ensures NewellNormal(Shift(RightTriangle(a, b), d)) == Point(0.0, 0.0, a * b)
    ensures RingArea(Shift(RightTriangle(a, b), d), norm) == a * b / 2.0
  {
    RightTriangleNormal(a, b);
    RightTriangleArea(a, b, norm);
    RingAreaShift(RightTriangle(a, b), d, norm);
  }

  // ---------------------------------------------------------------------------
  // The ring (0,0,0), (1,0,0), (1,1,1), (0,1,1), tilted out of the XY plane. The test calls
  // it a square; its sides are 1 and the square root of 2, so it is a rectangle.

  /** The tilted rectangle with side `s` along X and side `s` times the square root of 2
      rising one unit of Z per unit of Y. */
  function SlopedSquare(s: real): (r: seq<Point>)
    ensures |r| == 4
  {
    [Point(0.0, 0.0, 0.0), Point(s, 0.0, 0.0), Point(s, s, s), Point(0.0, s, s)]
  }

  /** Its normal is (0, -2s², 2s²), of squared length 8s⁴ ... */
  lemma SlopedSquareNormal(s: real)
    ensures NewellNormal(SlopedSquare(s)) == Point(0.0, -2.0 * s * s, 2.0 * s * s)
  {
    var r := SlopedSquare(s);
    NormalOfQuad(r[0], r[1], r[2], r[3]);
  }

  /** ... so its area is s² times the square root of 2: the square root of 2 for s = 1. */
  lemma SlopedSquareArea(s: real, norm: Point -> real)
    requires IsNorm(norm)
    ensures 0.0 <= RingArea(SlopedSquare(s), norm)
    ensures RingArea(SlopedSquare(s), norm) * RingArea(SlopedSquare(s), norm) == 2.0 * (s * s) * (s * s)
  {
    var n := Point(0.0, -2.0 * s * s, 2.0 * s * s);
    SlopedSquareNormal(s);
    HalfLength(n, norm, RingArea(SlopedSquare(s), norm));
    assert Norm2(n) == 8.0 * (s * s) * (s * s);
  }

  /** The same rectangle moved to any position keeps its normal and its area. */
  lemma SlopedSquareAnywhere(s: real, d: Point, norm: Point -> real)
    requires IsNorm(norm)
    ensures NewellNormal(Shift(SlopedSquare(s), d)) == Point(0.0, -2.0 * s * s, 2.0 * s * s)
    ensures RingArea(Shift(SlopedSquare(s), d), norm) == RingArea(SlopedSquare(s), norm)
    ensures 0.0 <= RingArea(Shift(SlopedSquare(s), d), norm)
  {
    SlopedSquareNormal(s);
    SlopedSquareArea(s, norm);
    RingAreaShift(SlopedSquare(s), d, norm);
  }

  // ---------------------------------------------------------------------------
  // Surfaces with holes.

  /** A surface of two rings that resolve to rectangles has the outer rectangle's area
      minus the hole's. Nothing clamps the difference: a hole larger than its surface
      makes it negative. */
  lemma RectangleWithRectangularHole(face: Face, vertices: seq<Vertex>, t: Transform, norm: Point -> real,
                                     x0: real, y0: real, z0: real, w0: real, h0: real,
                                     x1: real, y1: real, z1: real, w1: real, h1: real)
    requires |face| == 2 && InRange(face[0], vertices) && InRange(face[1], vertices)
    requires RingPoints(face[0], vertices, t) == Rectangle(x0, y0, z0, w0, h0)
    requires RingPoints(face[1], vertices, t) == Rectangle(x1, y1, z1, w1, h1)
    requires IsNorm(norm) && 0.0 <= w0 * h0 && 0.0 <= w1 * h1
    ensures FaceArea(face, vertices, t, norm) == Success(w0 * h0 - w1 * h1)
  {
    RectangleArea(x0, y0, z0, w0, h0, norm);
    RectangleArea(x1, y1, z1, w1, h1, norm);
    var holes := face[1..];
    assert holes == [face[1]] && holes[..0] == [];
    assert HolesArea(holes, vertices, t, norm) == w1 * h1;
  }

  /** A hole listed behind an outer ring of two indices is ignored, even one naming no
      vertex at all. */
  lemma ShortOuterRingIgnoresHoles(vertices: seq<Vertex>, t: Transform, norm: Point -> real)
    ensures FaceArea([[0, 1], [7, 8, 9]], vertices, t, norm) == Success(0.0)
  {
  }
}
