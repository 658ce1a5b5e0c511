# Roof areas of CityJSON objects, in Dafny

This project models the computational core of `mrtools`. That core adds a
`total_area_roof` attribute to every object of a CityJSON document: the summed area of the
object's faces whose semantic label is `"RoofSurface"`.

- `geometry.dfy` (module `Geometry`) covers `src/mrtools/geometry.py`:
  - decompressing a quantized vertex with the document's `transform` (scale, then translate);
  - the area of a 3D ring by Newell's method: half the length of the cyclic sum of edge terms;
  - the area of a surface: its outer ring minus each hole of at least three indices.
  `calculate_polygon_area_3d` and `calculate_surface_area` are methods with loop invariants.
  They are proved equal to the specification functions `RingArea` and `FaceArea`, which are
  built on the recursive edge sum `PathSum` and the recursive holes' total `HolesArea`.
  The lemmas about those functions give:
  - non-negativity of the ring area;
  - invariance under rotating the ring, reversing its winding and translating it;
  - the treatment of short holes, holes out of range and unclamped subtraction.
- `geometry_examples.dfy` (module `GeometryExamples`) states the unit tests' shapes for every
  size and position: rectangles (the unit square and the 10 by 10 square at real-world
  coordinates), the 3-4 right triangle, the tilted 1 by √2 rectangle of area √2 that the test
  calls a square, a surface with a rectangular hole, and the vertical unit squares in the XZ
  and YZ planes, the front face of the unit cube among them.
- `processor.dfy` (module `Processor`) covers `src/mrtools/processor.py`:
  - the semantic lookup `get_surface_semantic_type`, as a function over a JSON-like
    `ValueTree` so that every malformed `values` shape is expressible;
  - the walk `extract_roof_surfaces`, as methods with loop invariants: one per geometry type
    and one for a single shell of a Solid;
  - the sum `calculate_roof_area_for_object`, as a method with a loop invariant;
  - the in-memory part of `process_cityjson`, as a method of the class `CityJson` that
    reassigns its `cityObjects` map.
  Each method is proved equal to a specification function:
  - `RoofAreas` for the walk: the areas of the positions `RoofRefs(g)` (the faces labelled
    `"RoofSurface"`, in shell-then-face order), or the first error;
  - `ObjectRoofArea` for the sum;
  - `Annotated` for the document step.
  Lemmas relate these functions to what the source promises:
  - membership and order of the roof positions;
  - one area per roof face;
  - additivity over geometry objects;
  - the first-failure rule;
  - idempotence of the annotation;
  - that the only error the roof-area computation can raise is IndexError; KeyError comes
    only from a missing "CityObjects" or "vertices".
- `processor_examples.dfy` (module `ProcessorExamples`) states instances of the processor end
  to end: a Solid of one shell reads like the MultiSurface of the same face, and a city object
  whose one roof is the integer square of side `n` at scale `s` has roof area `(n·s)²`, 100 for
  the 10 by 10 roof stored in millimetres.

Python raises IndexError for a vertex index out of range. The model does not exclude that
case by a precondition: it is a `Failure(IndexError)` result, which ends the walk, the sum and
the document loop as the exception does. Python's negative list indexing is modelled where
the code allows it:
- vertex indices in `vertices_global[idx]`;
- semantic indices, whose guard `type_idx < len(surfaces)` has no lower bound.
A semantic index below `-len(surfaces)` raises IndexError inside the `try` and so gives None.

`math.sqrt` of the squared normal is the parameter `norm: Point -> real`. The lemmas that need
its meaning require `IsNorm(norm)`: `norm` is non-negative and its square is the squared
length.

The walk over faces is stated once for an abstract area computation `Measure`, and the sum
over geometry objects once for an abstract walk `RoofExtraction`. The processor's own
instances are `SurfaceArea(vertices, t, norm)` and `ExtractRoofs(measure)`, and every method's
contract uses these instances.

## Model

| member | source | states |
|---|---|---|
| Geometry.TransformVertex | src/mrtools/geometry.py:23-30 | decompression is undone axis by axis: on every axis with a non-zero scale, `(p - translate) / scale` gives back the integer coordinate, and on an axis with scale zero every vertex lands on the translate |
| Geometry.TransformIdentity | src/mrtools/geometry.py:23-30 | with scale 1 and translate 0 the decompressed point has the vertex's own coordinates |
| Geometry.TransformShift | src/mrtools/geometry.py:26-28 | adding `d` to the translate moves every decompressed point by `d` |
| Geometry.NewellNormal | src/mrtools/geometry.py:56-69 | a ring of fewer than three points has the zero normal; for two points the edge there and back cancels |
| Geometry.RingArea | src/mrtools/geometry.py:56-72 | with `math.sqrt` for `norm`, the area of every ring, short ones included, is half the length of its Newell normal, and so is never negative |
| Geometry.NewellNormalClosed | src/mrtools/geometry.py:63-69 | Newell's normal is the sum of the edge terms over the closed ring, each edge counted once, the last wrapping to the first |
| Geometry.NextIndex | src/mrtools/geometry.py:65 | `(i + 1) % n` is the next position, or 0 after the last |
| Geometry.CalculatePolygonArea3D | src/mrtools/geometry.py:56-73 | the loop's result is `RingArea`: 0.0 below three points, otherwise half the length of Newell's normal |
| Geometry.SquareRootUnique | src/mrtools/geometry.py:72 | two non-negative reals with equal squares are equal, so `norm` is determined by the squared length |
| Geometry.HalfLength | src/mrtools/geometry.py:72 | the area is non-negative and four times its square is the squared length of the normal |
| Geometry.PathSumPrepend | src/mrtools/geometry.py:63-69 | prepending a point adds the term of the new first edge to the edge sum |
| Geometry.ClosedSumRotate | src/mrtools/geometry.py:63-69 | the sum over a closed ring does not change when its first point moves to the end |
| Geometry.RingAreaRotateBy | src/mrtools/geometry.py:63-72 | starting the ring at any of its points leaves the normal and the area unchanged |
| Geometry.NewellTermShift | src/mrtools/geometry.py:67-69 | moving both ends of an edge by `d` adds a difference of a function of the two ends to its term |
| Geometry.RingAreaShift | src/mrtools/geometry.py:63-72 | translating every point of a ring by the same offset leaves the normal and the area unchanged |
| Geometry.NewellTermSwap | src/mrtools/geometry.py:67-69 | an edge run backwards contributes the negated term |
| Geometry.PathSumReverse | src/mrtools/geometry.py:63-69 | walking a path backwards negates its edge sum |
| Geometry.NewellNormalReverse | src/mrtools/geometry.py:63-69 | reversing the winding of a ring flips its normal |
| Geometry.RingAreaReverse | src/mrtools/geometry.py:56-72 | reversing the winding of a ring keeps its area |
| Geometry.NormNeg | src/mrtools/geometry.py:72 | a vector and its opposite have the same length |
| Geometry.VertexAt | src/mrtools/geometry.py:108-121 | `vertices_global[idx]` is the vertex at `idx` modulo the length: a negative index counts from the end |
| Geometry.ResolveRing | src/mrtools/geometry.py:108-110 | resolving a ring succeeds exactly when every index names a vertex (negative ones from the end), and fails only with IndexError |
| Geometry.RingPointsAt | src/mrtools/geometry.py:108-110 | point `i` of a resolved ring is the decompressed vertex named by index `i` |
| Geometry.FaceArea | src/mrtools/geometry.py:98-125 | the surface area succeeds exactly when every index it resolves is in range, fails only with IndexError, and is 0.0 for an empty surface or an outer ring below three indices |
| Geometry.HoleArea | src/mrtools/geometry.py:116-123 | with `math.sqrt` for `norm`, what one hole takes off is never negative |
| Geometry.HolesArea | src/mrtools/geometry.py:116-123 | with `math.sqrt` for `norm`, the holes' total is never negative: a hole can only reduce the area |
| Geometry.HolesAreaAppend | src/mrtools/geometry.py:116-123 | one more hole adds its own contribution to the holes' total |
| Geometry.CalculateSurfaceArea | src/mrtools/geometry.py:98-125 | the method's result, early returns and hole loop included, is `FaceArea` |
| Geometry.FaceAreaInRange | src/mrtools/geometry.py:102-125 | for a usable outer ring in range, the area is the outer ring's area minus the holes' total |
| Geometry.FaceAreaShortHole | src/mrtools/geometry.py:116-117 | a hole of fewer than three indices changes nothing, whatever indices it holds |
| Geometry.FaceAreaSubtractsHole | src/mrtools/geometry.py:117-123 | a hole of three or more indices in range is subtracted in full, with no clamping at zero |
| Geometry.FaceAreaBadHole | src/mrtools/geometry.py:118-121 | a hole of three or more indices with one out of range makes the surface fail with IndexError |
| Geometry.RingPointsShift | src/mrtools/geometry.py:108-110 | a translate moved by `d` moves every resolved point by `d` |
| Geometry.HolesAreaShift | src/mrtools/geometry.py:116-123 | the holes' total does not depend on the translate |
| Geometry.FaceAreaTranslateInvariant | src/mrtools/geometry.py:76-125 | the surface area, errors included, does not depend on the translate |
| GeometryExamples.LengthIs | src/mrtools/geometry.py:72 | a norm is fixed by its square: `norm(n) == len` when `len` is non-negative and squares to the squared length |
| GeometryExamples.AreaFromNormal | src/mrtools/geometry.py:72 | a ring whose normal has length `len` has area `len / 2` |
| GeometryExamples.PathSumTwo | src/mrtools/geometry.py:63-69 | the edge sum of a two-point path is its one edge term |
| GeometryExamples.NormalOfTriangle | src/mrtools/geometry.py:63-69 | Newell's normal of a triangle is the sum of its three edge terms |
| GeometryExamples.NormalOfQuad | src/mrtools/geometry.py:63-69 | Newell's normal of a quadrilateral is the sum of its four edge terms |
| GeometryExamples.RectangleNormal | tests/test_geometry.py:50-54 | an axis-parallel w by h rectangle anywhere has normal (0, 0, 2wh): (0, 0, 2) for the unit square |
| GeometryExamples.RectangleArea | tests/test_geometry.py:107-116 | an axis-parallel w by h rectangle has area wh wherever it lies: 1 for the unit square, 100 for the 10 by 10 square at (85000, 446000) |
| GeometryExamples.EdgeAlongZ | src/mrtools/geometry.py:67-69 | an edge parallel to the Z axis contributes to the Y component only |
| GeometryExamples.RectangleXZNormal | tests/test_geometry.py:62-66 | a w by h rectangle in a plane of constant Y has normal (0, −2wh, 0), wherever it lies |
| GeometryExamples.RectangleXZArea | tests/test_geometry.py:62-66 | that rectangle has area wh: 1 for the unit square in the XZ plane and for the front face of the unit cube |
| GeometryExamples.RectangleYZNormal | tests/test_geometry.py:68-72 | a w by h rectangle in a plane of constant X has normal (2wh, 0, 0), wherever it lies |
| GeometryExamples.RectangleYZArea | tests/test_geometry.py:68-72 | that rectangle has area wh: 1 for the unit square in the YZ plane |
| GeometryExamples.RightTriangleNormal | tests/test_geometry.py:74-78 | the right triangle with legs a and b has normal (0, 0, ab) |
| GeometryExamples.RightTriangleArea | tests/test_geometry.py:74-78 | the right triangle with legs a and b has area ab / 2: 6 for legs 3 and 4 |
| GeometryExamples.RightTriangleAnywhere | tests/test_geometry.py:74-78 | that triangle moved by any offset keeps normal (0, 0, ab) and area ab / 2 |
| GeometryExamples.SlopedSquareNormal | tests/test_geometry.py:80-87 | the tilted s by s√2 rectangle that the test calls a square has normal (0, -2s², 2s²) |
| GeometryExamples.SlopedSquareArea | tests/test_geometry.py:80-87 | that rectangle's area is non-negative and squares to 2s⁴: √2 for s = 1 |
| GeometryExamples.SlopedSquareAnywhere | tests/test_geometry.py:80-87 | that rectangle moved by any offset keeps its normal and its area, which stays non-negative |
| GeometryExamples.RectangleWithRectangularHole | tests/test_geometry.py:181-200 | a surface whose outer ring and hole resolve to rectangles has area w0·h0 − w1·h1 |
| GeometryExamples.ShortOuterRingIgnoresHoles | src/mrtools/geometry.py:104-105 | behind an outer ring of two indices, a hole is ignored even when its indices name no vertex |
| Processor.SurfaceKind | src/mrtools/processor.py:37-49 | an index entry in `-len(surfaces)..len(surfaces)-1` gives the type of the surface it names, counting from the end when negative; a null, a non-index or an index outside that range gives None |
| Processor.SemanticType | src/mrtools/processor.py:9-51 | None without semantics, `values` or `surfaces`, and None for any other geometry type; a label found is the type of one of the surfaces |
| Processor.SemanticTypeByPath | src/mrtools/processor.py:31-51 | the label is found by walking the position's index path through `values` and then one surface lookup; any other shape of the data gives None |
| Processor.MultiSurfaceLabel | src/mrtools/processor.py:40-46 | face `f` gets `surfaces[values[f]].type` exactly when `f < len(values)` and `values[f]` is an index below `len(surfaces)`, a negative one counting from the end; otherwise None |
| Processor.SolidLabel | src/mrtools/processor.py:32-38 | face `f` of shell `s` gets `surfaces[values[s][f]].type` when both indices are inside `values` and the entry is an index in range, a negative one counting from the end; a short `values`, a short or non-array shell entry, or a null entry gives None |
| Processor.FlatValuesNoSolidLabel | src/mrtools/processor.py:31-49 | flat values, none of whose entries is a list, never label a face of a Solid: `len()` of an integer or a null raises TypeError inside the `try`, and a short list fails the guard |
| Processor.NestedValuesNoMultiSurfaceLabel | src/mrtools/processor.py:40-49 | nested values, all of whose entries are lists, never label a face of a MultiSurface: comparing a list with an integer raises TypeError inside the `try` |
| Processor.SurfaceArea | src/mrtools/processor.py:86 | the processor's area computation fails only with IndexError, and succeeds exactly on faces whose resolved indices are in range |
| Processor.FacesAreas | src/mrtools/processor.py:93-95 | a successful computation has one area per face |
| Processor.FacesAreasAppend | src/mrtools/processor.py:93-95 | one more face appends its area, or its error ends the computation |
| Processor.FacesAreasValues | src/mrtools/processor.py:93-95 | the computation succeeds exactly when every face's area does, and then lists each face's area at that face's place |
| Processor.FacesAreasPrefixFailure | src/mrtools/processor.py:94 | once a prefix fails, every extension fails with the same error |
| Processor.FacesAreasFirstFailure | src/mrtools/processor.py:94 | a failure carries the error of the first failing face, and every face before it succeeds |
| Processor.RoofAreas | src/mrtools/processor.py:54-97 | a successful walk has exactly one area per roof position |
| Processor.RoofAreasValues | src/mrtools/processor.py:76-97 | the walk succeeds exactly when every roof face's area does, and its i-th area is that of the i-th roof position |
| Processor.RoofsAppend | src/mrtools/processor.py:93 | filtering one more position appends it exactly when its label is "RoofSurface" |
| Processor.RoofsPrefix | src/mrtools/processor.py:93 | the roof positions of a prefix are a prefix of the roof positions |
| Processor.RoofsMembers | src/mrtools/processor.py:93 | a position is kept exactly when it is among the positions and is a roof |
| Processor.RoofRefsMembers | src/mrtools/processor.py:78-95 | a position is a roof position of the geometry exactly when it is one of its faces and is labelled "RoofSurface" |
| Processor.PositionsMembers | src/mrtools/processor.py:78-95 | the walk visits exactly the faces of the geometry: shell and face indices inside a Solid, face indices inside a MultiSurface, nothing for another type |
| Processor.ShellsPositionsMembers | src/mrtools/processor.py:80-81 | a Solid's positions are exactly the pairs of a shell index and a face index inside that shell |
| Processor.ShellsPositionsIncreasing | src/mrtools/processor.py:80-81 | a Solid's positions come shell by shell and face by face, strictly increasing |
| Processor.PositionsIncreasing | src/mrtools/processor.py:78-95 | the walk visits the positions in strictly increasing order |
| Processor.RoofsIncreasing | src/mrtools/processor.py:85 | filtering keeps the order of the positions |
| Processor.RoofRefsIncreasing | src/mrtools/processor.py:78-95 | the roof areas come out in shell-then-face order, each roof face once |
| Processor.RoofsNone | src/mrtools/processor.py:85 | positions none of which is a roof yield no roof positions |
| Processor.NoRoofLabelNoRoofAreas | src/mrtools/processor.py:72-97 | a geometry without semantics, without any "RoofSurface" surface, or of another type yields the empty list |
| Processor.RoofAreasStep | src/mrtools/processor.py:91-95 | a non-roof position changes nothing, and a roof position appends its face to the faces measured |
| Processor.RoofAreasPrefixFailure | src/mrtools/processor.py:94 | a failing roof face among the first positions fails the whole geometry object with its error |
| Processor.ShellsPositionsPrefix | src/mrtools/processor.py:80 | the positions of the first `k` shells are a prefix of all positions |
| Processor.ShellVisitPrefix | src/mrtools/processor.py:80-81 | the positions visited up to a face of a shell are a prefix of all positions, and a finished shell completes the first `s + 1` shells |
| Processor.ExtractRoofSurfaces | src/mrtools/processor.py:72-97 | the walk returns `RoofAreas`: one area per roof face in shell-then-face order, the empty list for other geometry types, or the first IndexError |
| Processor.ExtractSolidRoofs | src/mrtools/processor.py:78-87 | the shell loop returns `RoofAreas` of the Solid |
| Processor.ShellFaceStep | src/mrtools/processor.py:81-87 | one face of a shell: a non-roof leaves the areas, a roof face appends its area, a failing roof face fails the whole geometry object |
| Processor.ExtractShellRoofs | src/mrtools/processor.py:81-87 | the face loop of one shell extends the areas to the end of that shell, or returns the error of the whole geometry object |
| Processor.ExtractMultiSurfaceRoofs | src/mrtools/processor.py:89-95 | the face loop returns `RoofAreas` of the MultiSurface |
| Processor.Sum | src/mrtools/processor.py:121 | `sum` of non-negative areas is non-negative, and of one area is that area |
| Processor.SumAppend | src/mrtools/processor.py:121 | `sum` is additive over concatenation |
| Processor.ObjectRoofArea | src/mrtools/processor.py:116-123 | no geometry object gives 0.0 |
| Processor.ObjectRoofAreaAppend | src/mrtools/processor.py:119-121 | the roof area is additive over the geometry list and succeeds exactly when both parts do |
| Processor.ObjectRoofAreaStep | src/mrtools/processor.py:119-121 | one more geometry object adds the sum of its roof areas, or its error ends the sum |
| Processor.ObjectRoofAreaNoRoofs | src/mrtools/processor.py:120-121 | a geometry object without roof faces adds nothing |
| Processor.ObjectRoofAreaPrefixFailure | src/mrtools/processor.py:120 | once a prefix fails, the whole list fails with the same error |
| Processor.ObjectRoofAreaFirstFailure | src/mrtools/processor.py:119-121 | a failure carries the error of the first failing geometry object, and every object before it succeeds |
| Processor.ObjectRoofAreaAllSucceed | src/mrtools/processor.py:119-121 | a successful sum had every geometry object's walk succeed |
| Processor.RoofAreasFirstFailure | src/mrtools/processor.py:85-87 | a failing walk carries the error of the first failing roof face, and every roof face before it succeeds |
| Processor.ObjectRoofAreaIndexError | src/mrtools/processor.py:116-123 | under the processor's area computation the only error is IndexError |
| Processor.ObjectRoofAreaLoopStep | src/mrtools/processor.py:119-121 | one turn of the loop adds the next object's roof areas to the total, or its error is the result for the whole list |
| Processor.CalculateRoofAreaForObject | src/mrtools/processor.py:116-123 | the loop returns `ObjectRoofArea`: the sum over the geometry objects of their roof areas' sums, 0.0 for none, or the error of the first failing geometry object |
| Processor.WithRoofArea | src/mrtools/processor.py:168-171 | the object keeps its type and geometry; its attributes exist, gain exactly the key `total_area_roof` holding the area, and keep every other key and value |
| Processor.EffectiveTransform | src/mrtools/processor.py:159 | the document's transform when it has one, otherwise one that leaves vertex coordinates as they are |
| Processor.Annotated | src/mrtools/processor.py:163-171 | no city object is added or removed |
| Processor.AnnotatedKeepsObjects | src/mrtools/processor.py:163-171 | each object keeps its type, geometry and other attributes and gains `total_area_roof` holding its roof area |
| Processor.WithRoofAreaTwice | src/mrtools/processor.py:168-171 | setting `total_area_roof` twice to the same area is setting it once |
| Processor.AnnotatedIdempotent | src/mrtools/processor.py:163-171 | annotating an annotated document changes nothing |
| Processor.Progress | src/mrtools/processor.py:163-171 | part way through the loop no object is added or removed |
| Processor.ProgressStart | src/mrtools/processor.py:163 | before the loop no object has changed |
| Processor.ProgressStep | src/mrtools/processor.py:165-171 | writing one object's roof area moves it out of the objects still to do |
| Processor.ProgressPartly | src/mrtools/processor.py:163-171 | every state of the loop has each object either unchanged or carrying its roof area |
| Processor.ProgressDone | src/mrtools/processor.py:163-171 | when the loop ends every object carries its roof area |
| ProcessorExamples.OneShellSolidIsMultiSurface | src/mrtools/processor.py:78-95 | a Solid of one shell of one face labelled by `[[k]]` has the roof areas of the MultiSurface of that face labelled by `[k]`, for every `k` and every surface list |
| ProcessorExamples.ScaledSquarePoints | src/mrtools/geometry.py:23-30 | the integer square of side `n`, decompressed at scale `s`, is the square of side `n·s` at the origin |
| ProcessorExamples.OneFaceAreas | src/mrtools/processor.py:93-95 | a single face lists its own area, or fails with its error |
| ProcessorExamples.OneRoofFace | src/mrtools/processor.py:89-95 | a MultiSurface of one face labelled "RoofSurface" measures that face |
| ProcessorExamples.RectangleRoofAreas | src/mrtools/processor.py:89-95 | when that face is one ring resolving to a w by h rectangle, its roof areas are `[wh]` |
| ProcessorExamples.OneGeometryObject | src/mrtools/processor.py:116-123 | a city object of one geometry object has the sum of that object's roof areas |
| ProcessorExamples.RectangleRoofObjectArea | src/mrtools/processor.py:116-123 | a city object whose one geometry object is that MultiSurface has roof area wh |
| ProcessorExamples.ScaledSquareRoofObjectArea | tests/test_processor.py:153-179 | the integer square of side `n` at scale `s` gives roof area `(n·s)²`: 100 for `n` = 10000 and `s` = 0.001 |
| Processor.CityJson.ProcessCityJson | src/mrtools/processor.py:151-171 | KeyError for missing "CityObjects", then for missing "vertices", with no object touched; otherwise success exactly when every object's roof area can be computed, and then every object is annotated; on failure the error is IndexError and each object is either unchanged or annotated; vertices and transform never change |

## Left out

- Processor.CityJson.ProcessCityJson: on an IndexError the contract says only that each object is either unchanged or annotated, not which ones. Python dictionaries iterate in insertion order, which the model does not keep: the loop picks the next key with `:|`.
- Reading and writing the file, `json.load` and `json.dump`, and the choice of output path (src/mrtools/processor.py:148-149, 173-176) are I/O. The document is a `CityJson` object already in memory.
- The command-line front ends `src/mrtools/cli.py` and `src/mrarea/cli.py` are argument parsing and console output. `src/mrarea/cli.py` imports a processor module that is not part of this model.
- IEEE floating point is not modelled: coordinates and areas are exact reals. Tests that compare rounded floats, such as test_geometry.py:36-44, have no counterpart.
- `math.sqrt` is the parameter `norm`, constrained by `IsNorm` where its meaning matters, because Dafny has no real square root.
- The pentagon test (tests/test_geometry.py:125-143) needs trigonometry and is left out.
- The fixture-file integration tests (tests/test_integration.py:15-125) are left out because their JSON files are not part of this model.
- JSON shapes the source does not anticipate are typed away:
  - a surface entry that is not an object: `.get` at processor.py:38 and :46 is inside the
    `try` that starts at :31, but the `except` at :48 lists only IndexError, KeyError and
    TypeError, so the AttributeError escapes;
  - JSON members present with the value null. The model reads such a member as missing
    wherever its field is an `Option`, and cannot express it where the field is a list. Python
    reads these as missing in the same way: a null `"semantics"`, `"values"` or `"surfaces"`,
    which give no label, and a null surface or geometry `"type"`. It does not for these:
    - `"attributes": null` passes the test at processor.py:168, and the assignment at :171 then
      raises TypeError, whereas `WithRoofArea` creates the map;
    - `"CityObjects": null` passes the test at processor.py:152, and `.items()` at :163 then
      raises AttributeError, whereas `ProcessCityJson` fails with KeyError("CityObjects");
    - `"vertices": null` passes the test at processor.py:154. Python then succeeds, writing 0.0
      into every object, when no roof face with an outer ring of three or more indices is
      measured. Otherwise it raises TypeError at geometry.py:109. `ProcessCityJson` instead fails
      with KeyError("vertices") and annotates nothing;
    - `"transform": null` is returned by the `.get` at processor.py:159, whose default applies
      only to a missing key. geometry.py:23 then raises TypeError on the first roof ring
      measured, whereas `EffectiveTransform` gives the identity and the model succeeds;
    - `"geometry": null` is returned by the `.get` at processor.py:116, and the loop at :119
      raises TypeError. `CityObject.geometry` is a sequence and cannot be null;
    - `"boundaries": null` is returned by the `.get` at processor.py:73, and `enumerate` at :80
      or :91 raises TypeError. A geometry object's faces or shells are a sequence and cannot be
      null;
  - booleans or floats used as semantic indices;
  - vertices with fewer than three coordinates;
  - a `transform` missing `scale` or `translate`;
  - boundaries that are not nested lists.
- The KeyError carries the missing key ("CityObjects" or "vertices"), not the source's message text.
- The messages of exceptions and the Python exception classes other than IndexError and KeyError do not appear: every error the core can raise on typed input is one of those two.
