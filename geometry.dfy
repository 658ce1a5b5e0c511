/** Geometric calculations of src/mrtools/geometry.py: decompressing CityJSON vertices,
    the area of a 3D ring by Newell's method, and the area of a surface with holes.
    Coordinates are exact reals. The length of Newell's normal, `math.sqrt(nx * nx + ny * ny
    + nz * nz)`, is the parameter `norm`, characterised by `IsNorm` wherever its meaning
    matters. */
module Geometry {
  import opened Wrappers

  /** The exceptions that escape the core: an out-of-range vertex index (Python's IndexError)
      and a missing top-level key of the document (Python's KeyError). */
  datatype Error = IndexError | KeyError(key: string)

  /** A quantized CityJSON vertex: three integers. */
  datatype Vertex = Vertex(x: int, y: int, z: int)

  /** A point, or a vector, with real coordinates. */
  datatype Point = Point(x: real, y: real, z: real)

  /** The CityJSON "transform" object: a per-axis scale and translation. */
  datatype Transform = Transform(scale: Point, translate: Point)

  /** A ring is a list of vertex indices; a surface (face) is a list of rings,
      the first the outer boundary and the others holes. */
  type Ring = seq<int>
  type Face = seq<Ring>

  const Origin := Point(0.0, 0.0, 0.0)

  /** The transform the document step uses when the document has none. */
  const Identity := Transform(Point(1.0, 1.0, 1.0), Origin)

  function Add(p: Point, q: Point): Point {
    Point(p.x + q.x, p.y + q.y, p.z + q.z)
  }

  /** Every point of `ring` moved by the same offset `d`. */
  function Shift(ring: seq<Point>, d: Point): (r: seq<Point>)
    ensures |r| == |ring|
  {
    seq(|ring|, i requires 0 <= i < |ring| => Add(ring[i], d))
  }

  /** Squared length of a vector. */
  function Norm2(n: Point): real {
    n.x * n.x + n.y * n.y + n.z * n.z
  }

  /** `norm` is the Euclidean length `math.sqrt(x * x + y * y + z * z)`: non-negative, and its
      square is the sum of the squared components. */
  ghost predicate IsNorm(norm: Point -> real) {
    forall n :: 0.0 <= norm(n) && norm(n) * norm(n) == Norm2(n)
  }

  // ---------------------------------------------------------------------------
  // transform_vertex

  /** Real-world coordinates of a quantized vertex: `v * scale + translate` per axis.
      On every axis with a non-zero scale the integer coordinate is recovered from the
      result, so the decompression loses nothing; on an axis with scale zero every vertex
      lands on the translate. */
  function TransformVertex(v: Vertex, t: Transform): (p: Point)
    ensures t.scale.x != 0.0 ==> (p.x - t.translate.x) / t.scale.x == v.x as real
    ensures t.scale.y != 0.0 ==> (p.y - t.translate.y) / t.scale.y == v.y as real
    ensures t.scale.z != 0.0 ==> (p.z - t.translate.z) / t.scale.z == v.z as real
    ensures t.scale.x == 0.0 ==> p.x == t.translate.x
    ensures t.scale.y == 0.0 ==> p.y == t.translate.y
    ensures t.scale.z == 0.0 ==> p.z == t.translate.z
  {
    Point(v.x as real * t.scale.x + t.translate.x,
          v.y as real * t.scale.y + t.translate.y,
          v.z as real * t.scale.z + t.translate.z)
  }

  /** With scale 1 and translate 0 the transform leaves the coordinates as they are. */
  lemma TransformIdentity(v: Vertex)
    ensures TransformVertex(v, Identity) == Point(v.x as real, v.y as real, v.z as real)
  {
  }

  /** Adding `d` to the document's translate moves every decompressed point by `d`. */
  lemma TransformShift(v: Vertex, t: Transform, d: Point)
    ensures TransformVertex(v, t.(translate := Add(t.translate, d))) == Add(TransformVertex(v, t), d)
  {
  }

  // ---------------------------------------------------------------------------
  // calculate_polygon_area_3d

  /** Newell's contribution of the edge from `p` to `q` to the normal of a polygon. */
  function NewellTerm(p: Point, q: Point): Point {
    Point((p.y - q.y) * (p.z + q.z),
          (p.z - q.z) * (p.x + q.x),
          (p.x - q.x) * (p.y + q.y))
  }

  /** Sum of `term` over the edges s[0]→s[1], …, s[|s|-2]→s[|s|-1] of an open path. */
  function PathSum(s: seq<Point>, term: (Point, Point) -> Point): Point
    decreases |s|
  {
    if |s| < 2 then Origin
    else Add(PathSum(s[..|s| - 1], term), term(s[|s| - 2], s[|s| - 1]))
  }

  /** The ring with its first point repeated at the end: the path whose edges are the
      ring's edges, the last one wrapping around to the start. */
  function Closed(ring: seq<Point>): seq<Point> {
    if ring == [] then [] else ring + [ring[0]]
  }

  /** Newell's normal of a ring: the terms of its consecutive edges plus that of the edge
      from its last point back to its first. A ring of fewer than three points, which
      encloses nothing, has the zero normal. */
  function NewellNormal(ring: seq<Point>): (n: Point)
    ensures |ring| < 3 ==> n == Origin
  {
    if ring == [] then Origin
    else
      var n := Add(PathSum(ring, NewellTerm), NewellTerm(ring[|ring| - 1], ring[0]));
      assert |ring| == 2 ==> n == Origin by {
        if |ring| == 2 {
          assert ring[..1] == [ring[0]];
          assert PathSum(ring, NewellTerm) == Add(Origin, NewellTerm(ring[0], ring[1]));
          EdgeBackAndForth(ring[0], ring[1]);
        }
      }
      n
  }

  /** An edge and its reverse cancel: a two-point ring has the zero normal. */
  lemma EdgeBackAndForth(p: Point, q: Point)
    ensures Add(Add(Origin, NewellTerm(p, q)), NewellTerm(q, p)) == Origin
  {
  }

  /** The normal is the sum over the closed path, every edge of the ring counted once. */
  lemma NewellNormalClosed(ring: seq<Point>)
    ensures NewellNormal(ring) == PathSum(Closed(ring), NewellTerm)
  {
    if ring != [] {
      var c := Closed(ring);
      assert c[..|c| - 1] == ring;
    }
  }

  /** The area `calculate_polygon_area_3d` computes: 0 below three points, otherwise half
      the length of Newell's normal. With `math.sqrt` for `norm` it is half the normal's
      length for every ring, so the shortcut below three points agrees with Newell's
      method, and it is never negative. */
  function RingArea(ring: seq<Point>, norm: Point -> real): (a: real)
    ensures IsNorm(norm) ==> a == 0.5 * norm(NewellNormal(ring)) && 0.0 <= a
  {
    if |ring| < 3 then
      NormOfOrigin(norm);
      0.0
    else 0.5 * norm(NewellNormal(ring))
  }

  /** The zero vector has length 0. */
  lemma NormOfOrigin(norm: Point -> real)
    ensures IsNorm(norm) ==> norm(Origin) == 0.0
  {
    if IsNorm(norm) {
      assert norm(Origin) * norm(Origin) == 0.0 * 0.0;
      SquareRootUnique(norm(Origin), 0.0);
    }
  }

  /** The successor of position `i` in a cyclic list of `n` elements. */
  lemma NextIndex(i: nat, n: nat)
    requires i < n
    ensures (i + 1) % n == if i + 1 < n then i + 1 else 0
  {
  }

  /** Extending a path by one point adds the term of its new last edge. */
  lemma PathSumExtend(s: seq<Point>, i: nat, term: (Point, Point) -> Point)
    requires i + 1 < |s|
    ensures PathSum(s[..i + 2], term) == Add(PathSum(s[..i + 1], term), term(s[i], s[i + 1]))
  {
    assert s[..i + 2][..i + 1] == s[..i + 1];
  }

  /** Newell's method as the source runs it: one pass over the ring, the successor of the
      last point being the first, accumulating the three normal components. */
  method CalculatePolygonArea3D(ring: seq<Point>, norm: Point -> real) returns (area: real)
    ensures area == RingArea(ring, norm)
    ensures |ring| < 3 ==> area == 0.0
  {
    var n := |ring|;
    if n < 3 {
      return 0.0;
    }
    var nx, ny, nz := 0.0, 0.0, 0.0;
    for i := 0 to n
      invariant i < n ==> Point(nx, ny, nz) == PathSum(ring[..i + 1], NewellTerm)
      invariant i == n ==> Point(nx, ny, nz) == NewellNormal(ring)
    {
      var v1 := ring[i];
      var v2 := ring[(i + 1) % n];
      NextIndex(i, n);
      if i + 1 < n {
        assert PathSum(ring[..i + 2], NewellTerm) == Add(Point(nx, ny, nz), NewellTerm(v1, v2)) by {
          PathSumExtend(ring, i, NewellTerm);
        }
      } else {
        assert NewellNormal(ring) == Add(Point(nx, ny, nz), NewellTerm(v1, v2)) by {
          assert ring[..i + 1] == ring;
        }
      }
      var edge := NewellTerm(v1, v2);
      nx, ny, nz := nx + edge.x, ny + edge.y, nz + edge.z;
    }
    area := 0.5 * norm(Point(nx, ny, nz));
  }

  lemma MulPositive(x: real, y: real)
    requires x > 0.0 && y > 0.0
    ensures x * y > 0.0
  {
  }

  lemma SquareStrictlyMonotone(a: real, b: real)
    requires 0.0 <= a < b
    ensures a * a < b * b
  {
    var d := b - a;
    var aa, ab, bb := a * a, a * b, b * b;
    MulPositive(d, b);
    assert d * b == bb - ab;
    if a > 0.0 {
      MulPositive(a, d);
      assert a * d == ab - aa;
    } else {
      assert aa == 0.0 && ab == 0.0;
    }
    assert aa <= ab < bb;
  }

  /** Two non-negative reals with equal squares are equal (the square root is unique). */
  lemma SquareRootUnique(a: real, b: real)
    requires 0.0 <= a && 0.0 <= b && a * a == b * b
    ensures a == b
  {
    if a < b {
      SquareStrictlyMonotone(a, b);
    } else if b < a {
      SquareStrictlyMonotone(b, a);
    }
  }

  /** Half the length of a vector is non-negative, and four times its square is the
      vector's squared length. */
  lemma HalfLength(n: Point, norm: Point -> real, half: real)
    requires IsNorm(norm) && half == 0.5 * norm(n)
    ensures 0.0 <= half
    ensures 4.0 * half * half == Norm2(n)
  {
    var s := norm(n);
    assert 0.0 <= s && s * s == Norm2(n);
    HalfSquared(s);
  }

  lemma HalfSquared(s: real)
    ensures 4.0 * (0.5 * s) * (0.5 * s) == s * s
  {
  }

  /** Prepending a point adds the term of the new first edge. */
  lemma {:induction false} PathSumPrepend(a: Point, s: seq<Point>, term: (Point, Point) -> Point)
    requires |s| >= 1
    ensures PathSum([a] + s, term) == Add(term(a, s[0]), PathSum(s, term))
    decreases |s|
  {
    if |s| == 1 {
      assert ([a] + s)[..1] == [a];
    } else {
      var m := |s|;
      assert ([a] + s)[..m] == [a] + s[..m - 1];
      PathSumPrepend(a, s[..m - 1], term);
    }
  }

  /** The ring with its first point moved to the end. */
  function Rotate(ring: seq<Point>): seq<Point>
    requires |ring| >= 1
  {
    ring[1..] + [ring[0]]
  }

  /** A sum over the edges of a closed ring does not depend on where the ring starts. */
  lemma {:induction false} ClosedSumRotate(ring: seq<Point>, term: (Point, Point) -> Point)
    requires |ring| >= 1
    ensures PathSum(Closed(Rotate(ring)), term) == PathSum(Closed(ring), term)
  {
    var a, r := ring[0], ring[1..];
    if |r| == 0 {
      assert Rotate(ring) == ring;
    } else {
      var open := r + [a];
      var c1, c2 := Closed(ring), Closed(Rotate(ring));
      assert c1 == [a] + open;
      assert c2 == open + [r[0]];
      PathSumPrepend(a, open, term);
      assert c2[..|c2| - 1] == open;
      assert c2[|c2| - 2] == a && c2[|c2| - 1] == r[0];
      assert PathSum(c2, term) == Add(PathSum(open, term), term(a, r[0]));
    }
  }

  /** Starting the ring at any of its points leaves the normal and the area unchanged,
      because the sum runs cyclically over the ring. */
  lemma {:induction false} RingAreaRotateBy(ring: seq<Point>, k: nat, norm: Point -> real)
    requires k <= |ring|
    ensures NewellNormal(ring[k..] + ring[..k]) == NewellNormal(ring)
    ensures RingArea(ring[k..] + ring[..k], norm) == RingArea(ring, norm)
    decreases k
  {
    if k == 0 {
      assert ring[k..] + ring[..k] == ring;
    } else {
      RingAreaRotateBy(ring, k - 1, norm);
      var s := ring[k - 1..] + ring[..k - 1];
      assert Rotate(s) == ring[k..] + ring[..k];
      ClosedSumRotate(s, NewellTerm);
      NewellNormalClosed(s);
      NewellNormalClosed(Rotate(s));
    }
  }

  function Sub(p: Point, q: Point): Point {
    Point(p.x - q.x, p.y - q.y, p.z - q.z)
  }

  /** When every edge of `s2` contributes the term of the matching edge of `s1` plus
      `pot(start) - pot(end)`, the extra contributions telescope along the path. */
  lemma {:induction false} PathSumTelescopes(s1: seq<Point>, s2: seq<Point>, term: (Point, Point) -> Point, pot: Point -> Point)
    requires |s1| == |s2| >= 1
    requires forall i :: 0 <= i < |s1| - 1 ==>
      term(s2[i], s2[i + 1]) == Add(term(s1[i], s1[i + 1]), Sub(pot(s1[i]), pot(s1[i + 1])))
    ensures PathSum(s2, term) == Add(PathSum(s1, term), Sub(pot(s1[0]), pot(s1[|s1| - 1])))
    decreases |s1|
  {
    var m := |s1|;
    if m >= 2 {
      var p1, p2 := s1[..m - 1], s2[..m - 1];
      var head1, head2 := PathSum(p1, term), PathSum(p2, term);
      assert head2 == Add(head1, Sub(pot(s1[0]), pot(s1[m - 2]))) by {
        PathSumTelescopes(p1, p2, term, pot);
      }
      var last1, last2 := term(s1[m - 2], s1[m - 1]), term(s2[m - 2], s2[m - 1]);
      assert PathSum(s1, term) == Add(head1, last1);
      assert PathSum(s2, term) == Add(head2, last2);
      assert last2 == Add(last1, Sub(pot(s1[m - 2]), pot(s1[m - 1])));
    }
  }

  /** What moving both ends of an edge by `d` adds to its Newell term is a difference of
      a function of its two ends. */
  function ShiftPotential(d: Point): Point -> Point {
    (p: Point) => Point(2.0 * d.z * p.y, 2.0 * d.x * p.z, 2.0 * d.y * p.x)
  }

  lemma NewellTermShift(p: Point, q: Point, d: Point)
    ensures NewellTerm(Add(p, d), Add(q, d)) == Add(NewellTerm(p, q), Sub(ShiftPotential(d)(p), ShiftPotential(d)(q)))
  {
    assert (p.y - q.y) * (p.z + d.z + q.z + d.z) == (p.y - q.y) * (p.z + q.z) + 2.0 * d.z * p.y - 2.0 * d.z * q.y;
    assert (p.z - q.z) * (p.x + d.x + q.x + d.x) == (p.z - q.z) * (p.x + q.x) + 2.0 * d.x * p.z - 2.0 * d.x * q.z;
    assert (p.x - q.x) * (p.y + d.y + q.y + d.y) == (p.x - q.x) * (p.y + q.y) + 2.0 * d.y * p.x - 2.0 * d.y * q.x;
  }

  /** Moving every point of the ring by the same offset leaves the normal and the area
      unchanged: the extra terms cancel around the closed ring. */
  lemma RingAreaShift(ring: seq<Point>, d: Point, norm: Point -> real)
    ensures NewellNormal(Shift(ring, d)) == NewellNormal(ring)
    ensures RingArea(Shift(ring, d), norm) == RingArea(ring, norm)
  {
    if |ring| >= 1 {
      var c1, c2 := Closed(ring), Closed(Shift(ring, d));
      assert |c1| == |c2|;
      forall i | 0 <= i < |c1| - 1
        ensures NewellTerm(c2[i], c2[i + 1])
             == Add(NewellTerm(c1[i], c1[i + 1]), Sub(ShiftPotential(d)(c1[i]), ShiftPotential(d)(c1[i + 1])))
      {
        assert c2[i] == Add(c1[i], d) && c2[i + 1] == Add(c1[i + 1], d);
        NewellTermShift(c1[i], c1[i + 1], d);
      }
      PathSumTelescopes(c1, c2, NewellTerm, ShiftPotential(d));
      assert c1[0] == c1[|c1| - 1];
      NewellNormalClosed(ring);
      NewellNormalClosed(Shift(ring, d));
    }
  }

  /** The vector pointing the other way. */
  function Neg(p: Point): Point {
    Point(-p.x, -p.y, -p.z)
  }

  /** The points of a path in the opposite order. */
  function Reverse(s: seq<Point>): (r: seq<Point>)
    ensures |r| == |s|
  {
    seq(|s|, i requires 0 <= i < |s| => s[|s| - 1 - i])
  }

  /** Walking a path backwards negates its edge sum: Newell's term of an edge run backwards
      is the negated term of the edge. */
  lemma {:induction false} PathSumReverse(s: seq<Point>)
    ensures PathSum(Reverse(s), NewellTerm) == Neg(PathSum(s, NewellTerm))
    decreases |s|
  {
    if |s| >= 2 {
      var m := |s| - 1;
      var t := s[..m];
      assert Reverse(s) == [s[m]] + Reverse(t);
      assert Reverse(t)[0] == s[m - 1];
      PathSumReverse(t);
      PathSumPrepend(s[m], Reverse(t), NewellTerm);
    }
  }

  /** Running an edge backwards negates its term. */
  lemma NewellTermSwap(p: Point, q: Point)
    ensures NewellTerm(q, p) == Neg(NewellTerm(p, q))
  {
  }

  /** Reversing the winding of a ring flips its normal. */
  lemma NewellNormalReverse(ring: seq<Point>)
    ensures NewellNormal(Reverse(ring)) == Neg(NewellNormal(ring))
  {
    if ring != [] {
      var r := Reverse(ring);
      var last := ring[|ring| - 1];
      assert r[|r| - 1] == ring[0] && r[0] == last;
      PathSumReverse(ring);
      NewellTermSwap(last, ring[0]);
      var ps, e := PathSum(ring, NewellTerm), NewellTerm(last, ring[0]);
      assert NewellNormal(r) == Add(Neg(ps), Neg(e));
    }
  }

  /** ... and keeps its area. */
  lemma RingAreaReverse(ring: seq<Point>, norm: Point -> real)
    requires IsNorm(norm)
    ensures RingArea(Reverse(ring), norm) == RingArea(ring, norm)
  {
    NewellNormalReverse(ring);
    NormNeg(norm, NewellNormal(ring));
  }

  /** A vector and its opposite have the same length. */
  lemma NormNeg(norm: Point -> real, n: Point)
    requires IsNorm(norm)
    ensures norm(Neg(n)) == norm(n)
  {
    var a, b := norm(Neg(n)), norm(n);
    assert a * a == Norm2(Neg(n)) && b * b == Norm2(n);
    assert Norm2(Neg(n)) == Norm2(n);
    SquareRootUnique(a, b);
  }

  // ---------------------------------------------------------------------------
  // calculate_surface_area

  /** Python's list indexing `vertices[k]`: a negative index counts from the end. */
  function VertexAt(vertices: seq<Vertex>, k: int): (v: Vertex)
    requires -|vertices| <= k < |vertices|
    ensures v == vertices[k % |vertices|]
  {
    if k < 0 then vertices[|vertices| + k] else vertices[k]
  }

  /** Every index of the ring names a vertex of the document, counting from the end when
      it is negative. */
  predicate InRange(ring: Ring, vertices: seq<Vertex>) {
    forall i :: 0 <= i < |ring| ==> -|vertices| <= ring[i] < |vertices|
  }

  /** The decompressed points of a ring whose indices are all in range, in ring order. */
  function RingPoints(ring: Ring, vertices: seq<Vertex>, t: Transform): (pts: seq<Point>)
    requires InRange(ring, vertices)
    ensures |pts| == |ring|
    decreases |ring|
  {
    if ring == [] then []
    else
      var m := |ring| - 1;
      assert InRange(ring[..m], vertices) by {
        assert forall i :: 0 <= i < m ==> ring[..m][i] == ring[i];
      }
      RingPoints(ring[..m], vertices, t) + [TransformVertex(VertexAt(vertices, ring[m]), t)]
  }

  /** The list comprehension that decompresses a ring: its points, or IndexError when one
      of its indices names no vertex. */
  function ResolveRing(ring: Ring, vertices: seq<Vertex>, t: Transform): (r: Result<seq<Point>, Error>)
    ensures r.Success? <==> InRange(ring, vertices)
    ensures r.Failure? ==> r.error == IndexError
  {
    if InRange(ring, vertices) then Success(RingPoints(ring, vertices, t)) else Failure(IndexError)
  }

  /** Point `i` of a resolved ring is the decompressed vertex that index `i` names. */
  lemma {:induction false} RingPointsAt(ring: Ring, vertices: seq<Vertex>, t: Transform, i: nat)
    requires InRange(ring, vertices) && i < |ring|
    ensures RingPoints(ring, vertices, t)[i] == TransformVertex(VertexAt(vertices, ring[i]), t)
    decreases |ring|
  {
    var m := |ring| - 1;
    if i < m {
      assert InRange(ring[..m], vertices) by {
        assert forall k :: 0 <= k < m ==> ring[..m][k] == ring[k];
      }
      RingPointsAt(ring[..m], vertices, t, i);
    }
  }

  /** The holes a surface resolves, those of three or more indices, name existing vertices. */
  predicate HolesInRange(holes: seq<Ring>, vertices: seq<Vertex>) {
    forall j :: 0 <= j < |holes| ==> |holes[j]| < 3 || InRange(holes[j], vertices)
  }

  /** What one hole takes off the surface: the area of its ring, or nothing when it has
      fewer than three indices and is skipped. */
  function HoleArea(hole: Ring, vertices: seq<Vertex>, t: Transform, norm: Point -> real): (a: real)
    requires |hole| < 3 || InRange(hole, vertices)
    ensures IsNorm(norm) ==> 0.0 <= a
  {
    if |hole| < 3 then 0.0 else RingArea(RingPoints(hole, vertices, t), norm)
  }

  /** Total area the holes take off, in list order. With `math.sqrt` for `norm` it is never
      negative: a hole can only reduce the area of its surface. */
  function HolesArea(holes: seq<Ring>, vertices: seq<Vertex>, t: Transform, norm: Point -> real): (a: real)
    requires HolesInRange(holes, vertices)
    ensures IsNorm(norm) ==> 0.0 <= a
    decreases |holes|
  {
    if holes == [] then 0.0
    else
      var m := |holes| - 1;
      assert HolesInRange(holes[..m], vertices) by {
        assert forall j :: 0 <= j < m ==> holes[..m][j] == holes[j];
      }
      HolesArea(holes[..m], vertices, t, norm) + HoleArea(holes[m], vertices, t, norm)
  }

  /** The indices `calculate_surface_area` resolves are all in range: none when the surface
      has no ring or an outer ring below three indices, otherwise the outer ring's and
      those of the holes it measures. */
  predicate FaceInRange(face: Face, vertices: seq<Vertex>) {
    |face| == 0 || |face[0]| < 3 || (InRange(face[0], vertices) && HolesInRange(face[1..], vertices))
  }

  /** The area `calculate_surface_area` computes: 0 without a usable outer ring, otherwise
      the outer ring's area minus that of each hole, or IndexError when a resolved index
      names no vertex. */
  function FaceArea(face: Face, vertices: seq<Vertex>, t: Transform, norm: Point -> real): (r: Result<real, Error>)
    ensures r.Success? <==> FaceInRange(face, vertices)
    ensures r.Failure? ==> r.error == IndexError
    ensures |face| == 0 || |face[0]| < 3 ==> r == Success(0.0)
  {
    if |face| == 0 || |face[0]| < 3 then Success(0.0)
    else if InRange(face[0], vertices) && HolesInRange(face[1..], vertices) then
      Success(RingArea(RingPoints(face[0], vertices, t), norm) - HolesArea(face[1..], vertices, t, norm))
    else Failure(IndexError)
  }

  /** Appending a hole adds what it takes off to the holes' total. */
  lemma HolesAreaAppend(holes: seq<Ring>, hole: Ring, vertices: seq<Vertex>, t: Transform, norm: Point -> real)
    requires HolesInRange(holes, vertices) && (|hole| < 3 || InRange(hole, vertices))
    ensures HolesInRange(holes + [hole], vertices)
    ensures HolesArea(holes + [hole], vertices, t, norm)
         == HolesArea(holes, vertices, t, norm) + HoleArea(hole, vertices, t, norm)
  {
    var hs := holes + [hole];
    assert hs[..|holes|] == holes;
    assert HolesInRange(hs, vertices) by {
      forall j | 0 <= j < |hs|
        ensures |hs[j]| < 3 || InRange(hs[j], vertices)
      {
        if j < |holes| {
          assert hs[j] == holes[j];
        }
      }
    }
  }

  /** The surface loop as the source runs it: resolve and measure the outer ring, then
      subtract each hole of at least three indices in turn. */
  method CalculateSurfaceArea(boundary: Face, vertices: seq<Vertex>, t: Transform, norm: Point -> real)
    returns (r: Result<real, Error>)
    ensures r == FaceArea(boundary, vertices, t, norm)
  {
    if |boundary| == 0 {
      return Success(0.0);
    }
    var outerIndices := boundary[0];
    if |outerIndices| < 3 {
      return Success(0.0);
    }
    var coords := ResolveRing(outerIndices, vertices, t);
    if coords.Failure? {
      return Failure(coords.error);
    }
    var outerArea := CalculatePolygonArea3D(coords.value, norm);
    var holes := boundary[1..];
    for k := 0 to |holes|
      invariant HolesInRange(holes[..k], vertices)
      invariant outerArea == RingArea(coords.value, norm) - HolesArea(holes[..k], vertices, t, norm)
    {
      var innerIndices := holes[k];
      ghost var before := outerArea;
      if |innerIndices| >= 3 {
        var innerCoords := ResolveRing(innerIndices, vertices, t);
        if innerCoords.Failure? {
          assert !FaceInRange(boundary, vertices) by {
            assert holes[k] == innerIndices;
          }
          return Failure(innerCoords.error);
        }
        var holeArea := CalculatePolygonArea3D(innerCoords.value, norm);
        outerArea := outerArea - holeArea;
      }
      assert outerArea == before - HoleArea(innerIndices, vertices, t, norm);
      assert holes[..k + 1] == holes[..k] + [innerIndices];
      HolesAreaAppend(holes[..k], innerIndices, vertices, t, norm);
    }
    assert holes[..|holes|] == holes;
    FaceAreaInRange(boundary, vertices, t, norm);
    return Success(outerArea);
  }

  /** The surface area seen one ring at a time, for a surface whose resolved indices are in
      range: the outer ring's area minus the holes' total. */
  lemma FaceAreaInRange(face: Face, vertices: seq<Vertex>, t: Transform, norm: Point -> real)
    requires |face| >= 1 && |face[0]| >= 3 && FaceInRange(face, vertices)
    ensures HolesInRange(face[1..], vertices)
    ensures FaceArea(face, vertices, t, norm)
         == Success(RingArea(RingPoints(face[0], vertices, t), norm) - HolesArea(face[1..], vertices, t, norm))
  {
  }

  /** A hole with fewer than three indices changes nothing, whatever indices it holds. */
  lemma FaceAreaShortHole(face: Face, hole: Ring, vertices: seq<Vertex>, t: Transform, norm: Point -> real)
    requires |face| >= 1 && |hole| < 3
    ensures FaceArea(face + [hole], vertices, t, norm) == FaceArea(face, vertices, t, norm)
  {
    var f := face + [hole];
    assert f[0] == face[0];
    assert f[1..] == face[1..] + [hole];
    if |face[0]| >= 3 {
      if HolesInRange(face[1..], vertices) {
        HolesAreaAppend(face[1..], hole, vertices, t, norm);
      } else {
        assert !HolesInRange(f[1..], vertices) by {
          var j :| 0 <= j < |face[1..]| && !(|face[1..][j]| < 3 || InRange(face[1..][j], vertices));
          assert f[1..][j] == face[1..][j];
        }
      }
    }
  }

  /** Behind a usable outer ring, a hole of three or more indices in range is subtracted
      from the area, with no clamping at zero. */
  lemma FaceAreaSubtractsHole(face: Face, hole: Ring, vertices: seq<Vertex>, t: Transform, norm: Point -> real)
    requires |face| >= 1 && |face[0]| >= 3 && |hole| >= 3 && InRange(hole, vertices)
    requires FaceArea(face, vertices, t, norm).Success?
    ensures FaceArea(face + [hole], vertices, t, norm)
         == Success(FaceArea(face, vertices, t, norm).value - RingArea(RingPoints(hole, vertices, t), norm))
  {
    var f := face + [hole];
    assert f[0] == face[0];
    assert f[1..] == face[1..] + [hole];
    FaceAreaInRange(face, vertices, t, norm);
    HolesAreaAppend(face[1..], hole, vertices, t, norm);
  }

  /** Behind a usable outer ring, a hole of three or more indices with one out of range
      makes the whole surface fail with IndexError. */
  lemma FaceAreaBadHole(face: Face, hole: Ring, vertices: seq<Vertex>, t: Transform, norm: Point -> real)
    requires |face| >= 1 && |face[0]| >= 3 && |hole| >= 3 && !InRange(hole, vertices)
    ensures FaceArea(face + [hole], vertices, t, norm) == Failure(IndexError)
  {
    var f := face + [hole];
    assert f[1..][|f| - 2] == hole;
  }

  /** The resolved ring under a translate moved by `d` is the resolved ring moved by `d`. */
  lemma RingPointsShift(ring: Ring, vertices: seq<Vertex>, t: Transform, d: Point)
    requires InRange(ring, vertices)
    ensures RingPoints(ring, vertices, t.(translate := Add(t.translate, d)))
         == Shift(RingPoints(ring, vertices, t), d)
  {
    var t' := t.(translate := Add(t.translate, d));
    var a, b := RingPoints(ring, vertices, t'), Shift(RingPoints(ring, vertices, t), d);
    forall i | 0 <= i < |ring|
      ensures a[i] == b[i]
    {
      RingPointsAt(ring, vertices, t, i);
      RingPointsAt(ring, vertices, t', i);
      TransformShift(VertexAt(vertices, ring[i]), t, d);
    }
  }

  /** The holes' total does not depend on the translate. */
  lemma {:induction false} HolesAreaShift(holes: seq<Ring>, vertices: seq<Vertex>, t: Transform, d: Point, norm: Point -> real)
    requires HolesInRange(holes, vertices)
    ensures HolesArea(holes, vertices, t.(translate := Add(t.translate, d)), norm) == HolesArea(holes, vertices, t, norm)
    decreases |holes|
  {
    if holes != [] {
      var m := |holes| - 1;
      assert HolesInRange(holes[..m], vertices) by {
        assert forall j :: 0 <= j < m ==> holes[..m][j] == holes[j];
      }
      HolesAreaShift(holes[..m], vertices, t, d, norm);
      if |holes[m]| >= 3 {
        RingPointsShift(holes[m], vertices, t, d);
        RingAreaShift(RingPoints(holes[m], vertices, t), d, norm);
      }
    }
  }

  /** Moving the document's translate moves every point of a surface alike, so the surface
      area does not depend on the translate. */
  lemma FaceAreaTranslateInvariant(face: Face, vertices: seq<Vertex>, t: Transform, d: Point, norm: Point -> real)
    ensures FaceArea(face, vertices, t.(translate := Add(t.translate, d)), norm) == FaceArea(face, vertices, t, norm)
  {
    if |face| >= 1 && |face[0]| >= 3 && FaceInRange(face, vertices) {
      RingPointsShift(face[0], vertices, t, d);
      RingAreaShift(RingPoints(face[0], vertices, t), d, norm);
      HolesAreaShift(face[1..], vertices, t, d, norm);
    }
  }
}
