/** End-to-end instances of the roof walk: a Solid of one shell reads the same as the
    MultiSurface with the same face, and the 10 by 10 roof stored at millimetre precision
    measures 100 square metres. */
module ProcessorExamples {
  import opened Wrappers
  import opened Geometry
  import opened GeometryExamples
  import opened Processor

  /** A Solid of one shell holding one face, labelled through nested values `[[k]]`, has
      the roof areas of the MultiSurface of that face labelled through flat values `[k]`. */
  lemma OneShellSolidIsMultiSurface(face: Face, k: int, surfaces: seq<Surface>, measure: Measure)
    ensures RoofAreas(Solid([[face]], Some(Semantics(Some(Array([Array([Index(k)])])), Some(surfaces)))), measure)
         == RoofAreas(MultiSurface([face], Some(Semantics(Some(Array([Index(k)])), Some(surfaces)))), measure)
  {
    var solid := Solid([[face]], Some(Semantics(Some(Array([Array([Index(k)])])), Some(surfaces))));
    var multi := MultiSurface([face], Some(Semantics(Some(Array([Index(k)])), Some(surfaces))));
    var shells: seq<seq<Face>> := [[face]];
    assert shells[..0] == [];
    assert Row(0, 1) == [ShellFace(0, 0)];
    assert ShellsPositions(shells) == ShellsPositions(shells[..0]) + Row(0, 1);
    assert Positions(solid) == [ShellFace(0, 0)];
    assert Positions(multi) == [Face(0)];
    assert IsRoof(solid, ShellFace(0, 0)) == IsRoof(multi, Face(0));
    RoofsAppend(solid, [], ShellFace(0, 0));
    RoofsAppend(multi, [], Face(0));
    assert FaceAt(solid, ShellFace(0, 0)) == face == FaceAt(multi, Face(0));
  }

  /** The corners of an `n` by `n` square as integers, in the order of its ring. */
  function SquareCorners(n: int): (vs: seq<Vertex>)
    ensures |vs| == 4
  {
    [Vertex(0, 0, 0), Vertex(n, 0, 0), Vertex(n, n, 0), Vertex(0, n, 0)]
  }

  /** The same scale `s` on every axis, no translation. */
  function Scale(s: real): Transform {
    Transform(Point(s, s, s), Origin)
  }

  /** Decompressed at scale `s`, the corners are the square of side `n * s` at the origin. */
  lemma ScaledSquarePoints(n: int, s: real)
    ensures InRange([0, 1, 2, 3], SquareCorners(n))
    ensures RingPoints([0, 1, 2, 3], SquareCorners(n), Scale(s))
         == Rectangle(0.0, 0.0, 0.0, n as real * s, n as real * s)
  {
    var ring: Ring := [0, 1, 2, 3];
    var pts := RingPoints(ring, SquareCorners(n), Scale(s));
    forall i | 0 <= i < 4
      ensures pts[i] == Rectangle(0.0, 0.0, 0.0, n as real * s, n as real * s)[i]
    {
      RingPointsAt(ring, SquareCorners(n), Scale(s), i);
    }
  }

  /** The areas of a single face: its own area, or its error. */
  lemma OneFaceAreas(face: Face, measure: Measure)
    ensures FacesAreas([face], measure)
         == if measure(face).Success? then Success([measure(face).value]) else Failure(measure(face).error)
  {
    FacesAreasAppend([], face, measure);
    assert [] + [face] == [face];
    assert FacesAreas([], measure) == Success([]);
    if measure(face).Success? {
      assert [] + [measure(face).value] == [measure(face).value];
    }
  }

  /** A MultiSurface of one face labelled "RoofSurface" lists that face's area, or fails
      with its error. */
  lemma OneRoofFace(face: Face, measure: Measure)
    ensures RoofAreas(MultiSurface([face], Some(Semantics(Some(Array([Index(0)])), Some([Surface(Some(Roof))])))), measure)
         == FacesAreas([face], measure)
  {
    var g := MultiSurface([face], Some(Semantics(Some(Array([Index(0)])), Some([Surface(Some(Roof))]))));
    assert Positions(g) == [] + [Face(0)];
    assert IsRoof(g, Face(0));
    RoofsAppend(g, [], Face(0));
    assert Roofs(g, Positions(g)) == [Face(0)];
    assert FacesAt(g, [Face(0)]) == [face];
  }

  /** A MultiSurface of one face with one ring that decompresses to a rectangle, labelled
      "RoofSurface", lists the rectangle's area as its one roof area. */
  lemma RectangleRoofAreas(ring: Ring, vertices: seq<Vertex>, t: Transform, norm: Point -> real,
                           x0: real, y0: real, z: real, w: real, h: real)
    requires InRange(ring, vertices) && RingPoints(ring, vertices, t) == Rectangle(x0, y0, z, w, h)
    requires IsNorm(norm) && 0.0 <= w * h
    ensures RoofAreas(MultiSurface([[ring]], Some(Semantics(Some(Array([Index(0)])), Some([Surface(Some(Roof))])))),
                      SurfaceArea(vertices, t, norm))
         == Success([w * h])
  {
    var face := [ring];
    RectangleArea(x0, y0, z, w, h, norm);
    assert face[1..] == [];
    FaceAreaInRange(face, vertices, t, norm);
    OneRoofFace(face, SurfaceArea(vertices, t, norm));
    OneFaceAreas(face, SurfaceArea(vertices, t, norm));
  }

  /** A city object of one geometry object has the sum of that object's roof areas. */
  lemma OneGeometryObject(g: GeometryObject, extract: RoofExtraction)
    requires extract(g).Success?
    ensures ObjectRoofArea([g], extract) == Success(Sum(extract(g).value))
  {
    ObjectRoofAreaStep([], g, extract);
    assert [] + [g] == [g];
  }

  /** A city object whose one geometry object is that MultiSurface has the rectangle's area
      as its roof area. */
  lemma RectangleRoofObjectArea(ring: Ring, vertices: seq<Vertex>, t: Transform, norm: Point -> real,
                                x0: real, y0: real, z: real, w: real, h: real)
    requires InRange(ring, vertices) && RingPoints(ring, vertices, t) == Rectangle(x0, y0, z, w, h)
    requires IsNorm(norm) && 0.0 <= w * h
    ensures ObjectRoofArea([MultiSurface([[ring]], Some(Semantics(Some(Array([Index(0)])), Some([Surface(Some(Roof))]))))],
                           ExtractRoofs(SurfaceArea(vertices, t, norm)))
         == Success(w * h)
  {
    var measure := SurfaceArea(vertices, t, norm);
    var g := MultiSurface([[ring]], Some(Semantics(Some(Array([Index(0)])), Some([Surface(Some(Roof))]))));
    RectangleRoofAreas(ring, vertices, t, norm, x0, y0, z, w, h);
    ghost var extract := ExtractionOf(measure);
    OneGeometryObject(g, extract);
    assert Sum([w * h]) == w * h;
    ObjectRoofAreaOfExtraction([g], extract, measure);
  }

  /** A city object whose roof is stored as the integer square of side `n` at scale `s`
      has the square of `side` = `n * s` as its roof area: 100 square metres for the 10 by
      10 roof stored in millimetres, `n` = 10000 and `s` = 0.001. */
  lemma ScaledSquareRoofObjectArea(n: int, s: real, side: real, norm: Point -> real)
    requires side == n as real * s && IsNorm(norm)
    ensures ObjectRoofArea([MultiSurface([[[0, 1, 2, 3]]], Some(Semantics(Some(Array([Index(0)])), Some([Surface(Some(Roof))]))))],
                           ExtractRoofs(SurfaceArea(SquareCorners(n), Scale(s), norm)))
         == Success(side * side)
  {
    ScaledSquarePoints(n, s);
    assert 0.0 <= side * side;
    RectangleRoofObjectArea([0, 1, 2, 3], SquareCorners(n), Scale(s), norm, 0.0, 0.0, 0.0, side, side);
  }
}
