/** The semantic walker of src/mrtools/processor.py: which faces of a CityJSON geometry
    object are labelled "RoofSurface", their areas, the total roof area of a city object,
    and the in-memory step that writes `total_area_roof` into every object's attributes. */
module Processor {
  import opened Wrappers
  import opened Geometry

  // ---------------------------------------------------------------------------
  // Semantics

  /** A JSON value as it may appear in `semantics.values`: null, an integer index into
      `surfaces`, or an array (flat for a MultiSurface, one array per shell for a Solid). */
  datatype ValueTree = Null | Index(k: int) | Array(items: seq<ValueTree>)

  /** A semantic surface object; `kind` is its "type" member, absent when it has none. */
  datatype Surface = Surface(kind: Option<string>)

  /** The "semantics" member of a geometry object; a missing key is None. */
  datatype Semantics = Semantics(values: Option<ValueTree>, surfaces: Option<seq<Surface>>)

  /** Where a face sits in its geometry: the face index of a MultiSurface, or the shell and
      face index of a Solid. */
  datatype Position = Face(face: nat) | ShellFace(shell: nat, face: nat)

  const SolidType := "Solid"
  const MultiSurfaceType := "MultiSurface"
  const Roof := "RoofSurface"

  /** `surfaces[k].get("type")`, reached once `k < len(surfaces)` holds: a negative `k` counts
      from the end, and one below `-len(surfaces)` raises IndexError, which the lookup turns
      into None. A null entry fails the `is not None` test, and an array entry makes the
      comparison raise TypeError: both give None. */
  function SurfaceKind(surfaces: seq<Surface>, entry: ValueTree): (r: Option<string>)
    ensures entry.Index? && -|surfaces| <= entry.k < |surfaces| ==> r == surfaces[entry.k % |surfaces|].kind
    ensures !entry.Index? || entry.k < -|surfaces| || |surfaces| <= entry.k ==> r.None?
  {
    match entry
    case Index(k) =>
      if k < -|surfaces| || |surfaces| <= k then None
      else if k < 0 then surfaces[|surfaces| + k].kind
      else surfaces[k].kind
    case _ => None
  }

  /** The semantic label of the face at `pos`, or None. Every IndexError, KeyError and
      TypeError of the lookup yields None: a shell entry that is not an array, flat values
      for a Solid, a Solid position for a MultiSurface or the other way round. */
  function SemanticType(pos: Position, semantics: Option<Semantics>, geomType: string): (r: Option<string>)
    ensures semantics.None? || semantics.value.values.None? || semantics.value.surfaces.None? ==> r.None?
    ensures geomType != SolidType && geomType != MultiSurfaceType ==> r.None?
    ensures r.Some? ==> exists j :: 0 <= j < |semantics.value.surfaces.value| && semantics.value.surfaces.value[j].kind == r
  {
    if semantics.None? || semantics.value.values.None? || semantics.value.surfaces.None? then None
    else
      var values, surfaces := semantics.value.values.value, semantics.value.surfaces.value;
      if geomType == SolidType then
        match pos
        case ShellFace(s, f) =>
          if values.Array? && s < |values.items| && values.items[s].Array? && f < |values.items[s].items|
          then SurfaceKind(surfaces, values.items[s].items[f])
          else None
        case Face(_) => None
      else if geomType == MultiSurfaceType then
        match pos
        case Face(f) =>
          if values.Array? && f < |values.items| then SurfaceKind(surfaces, values.items[f]) else None
        case ShellFace(_, _) => None
      else None
  }

  /** The index path of a position into `semantics.values`. */
  function Path(pos: Position): seq<nat> {
    match pos
    case Face(f) => [f]
    case ShellFace(s, f) => [s, f]
  }

  /** The kind of position each geometry type addresses its faces by. */
  predicate Fits(pos: Position, geomType: string) {
    (geomType == SolidType && pos.ShellFace?) || (geomType == MultiSurfaceType && pos.Face?)
  }

  /** The entry reached by following `path` down through nested arrays, if every step
      lands inside an array. */
  function Lookup(tree: ValueTree, path: seq<nat>): Option<ValueTree>
    decreases |path|
  {
    if path == [] then Some(tree)
    else match tree
      case Array(items) => if path[0] < |items| then Lookup(items[path[0]], path[1..]) else None
      case _ => None
  }

  /** The lookup is a walk along the position's path through `values`, followed by one
      surface lookup: any other shape of the data gives None. */
  lemma SemanticTypeByPath(pos: Position, semantics: Option<Semantics>, geomType: string)
    ensures SemanticType(pos, semantics, geomType)
         == if semantics.Some? && semantics.value.values.Some? && semantics.value.surfaces.Some?
               && Fits(pos, geomType) && Lookup(semantics.value.values.value, Path(pos)).Some?
            then SurfaceKind(semantics.value.surfaces.value, Lookup(semantics.value.values.value, Path(pos)).value)
            else None
  {
    if semantics.Some? && semantics.value.values.Some? && Fits(pos, geomType) {
      var values := semantics.value.values.value;
      var path := Path(pos);
      if pos.ShellFace? && values.Array? && pos.shell < |values.items| {
        assert path[1..] == [pos.face] && path[1..][1..] == [];
        assert Lookup(values, path) == Lookup(values.items[pos.shell], [pos.face]);
        var shell := values.items[pos.shell];
        if shell.Array? && pos.face < |shell.items| {
          assert Lookup(shell, [pos.face]) == Lookup(shell.items[pos.face], []);
        }
      } else if pos.Face? {
        assert path[1..] == [];
      }
    }
  }

  /** MultiSurface: face `f` gets `surfaces[values[f]]`'s type exactly when `f < len(values)`
      and `values[f]` is an index below `len(surfaces)` (a negative one counting from the
      end); in every other case the result is None. */
  lemma MultiSurfaceLabel(f: nat, items: seq<ValueTree>, surfaces: seq<Surface>)
    ensures var r := SemanticType(Face(f), Some(Semantics(Some(Array(items)), Some(surfaces))), MultiSurfaceType);
      && (f < |items| && items[f].Index? && 0 <= items[f].k < |surfaces| ==> r == surfaces[items[f].k].kind)
      && (f < |items| && items[f].Index? && -|surfaces| <= items[f].k < 0 ==> r == surfaces[|surfaces| + items[f].k].kind)
      && (|items| <= f || !items[f].Index? || items[f].k < -|surfaces| || |surfaces| <= items[f].k ==> r.None?)
  {
  }

  /** Solid: face `f` of shell `s` gets `surfaces[values[s][f]]`'s type exactly when both
      indices are inside `values` and the entry is an index below `len(surfaces)` (a
      negative one counting from the end); a short
      `values`, a short or non-array shell entry, or a null entry gives None. */
  lemma SolidLabel(s: nat, f: nat, shells: seq<ValueTree>, surfaces: seq<Surface>)
    ensures var r := SemanticType(ShellFace(s, f), Some(Semantics(Some(Array(shells)), Some(surfaces))), SolidType);
      && ((s < |shells| && shells[s].Array? && f < |shells[s].items| && shells[s].items[f].Index?
           && 0 <= shells[s].items[f].k < |surfaces|) ==> r == surfaces[shells[s].items[f].k].kind)
      && ((s < |shells| && shells[s].Array? && f < |shells[s].items| && shells[s].items[f].Index?
           && -|surfaces| <= shells[s].items[f].k < 0) ==> r == surfaces[|surfaces| + shells[s].items[f].k].kind)
      && ((|shells| <= s || !shells[s].Array? || |shells[s].items| <= f || !shells[s].items[f].Index?
           || shells[s].items[f].k < -|surfaces| || |surfaces| <= shells[s].items[f].k) ==> r.None?)
  {
  }

  /** Flat values never label a Solid face: `len()` of an integer or a null entry raises
      TypeError, and a short list fails the guard on the shell index. */
  lemma FlatValuesNoSolidLabel(s: nat, f: nat, items: seq<ValueTree>, surfaces: seq<Surface>)
    requires forall i :: 0 <= i < |items| ==> !items[i].Array?
    ensures SemanticType(ShellFace(s, f), Some(Semantics(Some(Array(items)), Some(surfaces))), SolidType).None?
  {
  }

  /** Nested values never label a MultiSurface face: comparing a list with an integer
      raises TypeError. */
  lemma NestedValuesNoMultiSurfaceLabel(f: nat, items: seq<ValueTree>, surfaces: seq<Surface>)
    requires forall i :: 0 <= i < |items| ==> items[i].Array?
    ensures SemanticType(Face(f), Some(Semantics(Some(Array(items)), Some(surfaces))), MultiSurfaceType).None?
  {
  }

  // ---------------------------------------------------------------------------
  // Geometry objects and their roof faces

  /** A CityJSON geometry object. A missing "boundaries" is the empty list; any type other
      than the two the walker reads is `Other`. */
  datatype GeometryObject =
    | MultiSurface(faces: seq<Face>, semantics: Option<Semantics>)
    | Solid(shells: seq<seq<Face>>, semantics: Option<Semantics>)
    | Other(kind: Option<string>)

  /** Face `f` of shell `s` for every `f < n`, in order. */
  function Row(s: nat, n: nat): (r: seq<Position>)
    ensures |r| == n
  {
    seq(n, j requires 0 <= j < n => ShellFace(s, j))
  }

  /** Every face position of a list of shells, shell by shell and face by face. */
  function ShellsPositions(shells: seq<seq<Face>>): seq<Position>
    decreases |shells|
  {
    if shells == [] then []
    else ShellsPositions(shells[..|shells| - 1]) + Row(|shells| - 1, |shells[|shells| - 1]|)
  }

  /** The positions the walker visits, in its order. */
  function Positions(g: GeometryObject): seq<Position> {
    match g
    case MultiSurface(faces, _) => seq(|faces|, i requires 0 <= i < |faces| => Face(i))
    case Solid(shells, _) => ShellsPositions(shells)
    case Other(_) => []
  }

  /** The face at a position; a position outside the geometry names the empty face. */
  function FaceAt(g: GeometryObject, p: Position): Face {
    match g
    case MultiSurface(faces, _) => if p.Face? && p.face < |faces| then faces[p.face] else []
    case Solid(shells, _) =>
      if p.ShellFace? && p.shell < |shells| && p.face < |shells[p.shell]| then shells[p.shell][p.face] else []
    case Other(_) => []
  }

  /** The face at `p` carries the label "RoofSurface". */
  predicate IsRoof(g: GeometryObject, p: Position) {
    match g
    case MultiSurface(_, semantics) => SemanticType(p, semantics, MultiSurfaceType) == Some(Roof)
    case Solid(_, semantics) => SemanticType(p, semantics, SolidType) == Some(Roof)
    case Other(_) => false
  }

  /** The roof positions among `ps`, in the order of `ps`. */
  function Roofs(g: GeometryObject, ps: seq<Position>): seq<Position>
    decreases |ps|
  {
    if ps == [] then []
    else
      var p := ps[|ps| - 1];
      Roofs(g, ps[..|ps| - 1]) + (if IsRoof(g, p) then [p] else [])
  }

  /** The roof positions of a geometry object, in the walker's order. */
  function RoofRefs(g: GeometryObject): seq<Position> {
    Roofs(g, Positions(g))
  }

  /** The faces at a list of positions. */
  function FacesAt(g: GeometryObject, ps: seq<Position>): (faces: seq<Face>)
    ensures |faces| == |ps|
  {
    seq(|ps|, i requires 0 <= i < |ps| => FaceAt(g, ps[i]))
  }

  /** An area computation for one surface: `calculate_surface_area` over a fixed vertex
      list, transform and square root, kept abstract here so that the walk over faces and
      objects is stated once for any such computation. */
  type Measure = Face -> Result<real, Error>

  /** The area computation the processor uses: `calculate_surface_area` on the document's
      vertices and transform. */
  function SurfaceArea(vertices: seq<Vertex>, t: Transform, norm: Point -> real): (m: Measure)
    ensures forall face :: m(face).Failure? ==> m(face).error == IndexError
    ensures forall face :: m(face).Success? <==> FaceInRange(face, vertices)
  {
    face => FaceArea(face, vertices, t, norm)
  }

  /** The areas of a list of faces, computed in order as a loop appending to a list does:
      the first face whose area computation fails ends the
      computation with its error. */
  function FacesAreas(faces: seq<Face>, measure: Measure)
    : (r: Result<seq<real>, Error>)
    ensures r.Success? ==> |r.value| == |faces|
    decreases |faces|
  {
    if faces == [] then Success([])
    else
      var before := FacesAreas(faces[..|faces| - 1], measure);
      var area := measure(faces[|faces| - 1]);
      if before.Failure? then before
      else if area.Failure? then Failure(area.error)
      else Success(before.value + [area.value])
  }

  /** One more face: its area is appended, or its error ends the computation. */
  lemma {:induction false} FacesAreasAppend(faces: seq<Face>, face: Face, measure: Measure)
    ensures FacesAreas(faces + [face], measure)
         == if FacesAreas(faces, measure).Failure? then FacesAreas(faces, measure)
            else if measure(face).Failure? then Failure(measure(face).error)
            else Success(FacesAreas(faces, measure).value + [measure(face).value])
  {
    assert (faces + [face])[..|faces|] == faces;
  }

  /** The computation succeeds exactly when every face's does, and then lists each face's
      area at that face's place. */
  lemma {:induction false} FacesAreasValues(faces: seq<Face>, measure: Measure)
    ensures FacesAreas(faces, measure).Success?
        <==> forall i :: 0 <= i < |faces| ==> measure(faces[i]).Success?
    ensures FacesAreas(faces, measure).Success? ==>
      forall i :: 0 <= i < |faces| ==> measure(faces[i]) == Success(FacesAreas(faces, measure).value[i])
    decreases |faces|
  {
    if faces != [] {
      var init := faces[..|faces| - 1];
      FacesAreasValues(init, measure);
      if FacesAreas(init, measure).Failure? {
        var i :| 0 <= i < |init| && measure(init[i]).Failure?;
        assert faces[i] == init[i];
      }
    }
  }

  /** Once a prefix fails, so does every extension of it. */
  lemma {:induction false} FacesAreasPrefixFailure(faces: seq<Face>, more: seq<Face>, measure: Measure)
    requires faces <= more && FacesAreas(faces, measure).Failure?
    ensures FacesAreas(more, measure) == FacesAreas(faces, measure)
    decreases |more|
  {
    if |faces| < |more| {
      var init := more[..|more| - 1];
      assert faces <= init;
      FacesAreasPrefixFailure(faces, init, measure);
    } else {
      assert faces == more;
    }
  }

  /** A failure is the error of the first face whose area computation fails: every face
      before it succeeds. */
  lemma {:induction false} FacesAreasFirstFailure(faces: seq<Face>, measure: Measure)
    ensures FacesAreas(faces, measure).Failure? ==>
      exists i :: 0 <= i < |faces| && measure(faces[i]) == Failure(FacesAreas(faces, measure).error)
                  && forall j :: 0 <= j < i ==> measure(faces[j]).Success?
    decreases |faces|
  {
    if faces != [] && FacesAreas(faces, measure).Failure? {
      var init := faces[..|faces| - 1];
      FacesAreasFirstFailure(init, measure);
      if FacesAreas(init, measure).Failure? {
        var i :| 0 <= i < |init| && measure(init[i]) == Failure(FacesAreas(init, measure).error)
                 && forall j :: 0 <= j < i ==> measure(init[j]).Success?;
        assert faces[i] == init[i];
        assert forall j :: 0 <= j < i ==> faces[j] == init[j];
      } else {
        FacesAreasValues(init, measure);
        assert forall j :: 0 <= j < |init| ==> faces[j] == init[j];
      }
    }
  }

  /** The areas of the roof faces among the positions `ps`. */
  function RoofAreasAt(g: GeometryObject, ps: seq<Position>, measure: Measure)
    : Result<seq<real>, Error>
  {
    FacesAreas(FacesAt(g, Roofs(g, ps)), measure)
  }

  /** What `extract_roof_surfaces` computes: one area per roof face, in shell-then-face
      order, or the error of the first roof face whose area computation fails. */
  function RoofAreas(g: GeometryObject, measure: Measure)
    : (r: Result<seq<real>, Error>)
    ensures r.Success? ==> |r.value| == |RoofRefs(g)|
  {
    RoofAreasAt(g, Positions(g), measure)
  }

  /** The walk succeeds exactly when the area computation of every roof face does, and then
      its i-th area is that of the i-th roof position. */
  lemma RoofAreasValues(g: GeometryObject, measure: Measure)
    ensures RoofAreas(g, measure).Success?
        <==> forall i :: 0 <= i < |RoofRefs(g)| ==> measure(FaceAt(g, RoofRefs(g)[i])).Success?
    ensures RoofAreas(g, measure).Success? ==>
      forall i :: 0 <= i < |RoofRefs(g)| ==> measure(FaceAt(g, RoofRefs(g)[i])) == Success(RoofAreas(g, measure).value[i])
  {
    var faces := FacesAt(g, RoofRefs(g));
    FacesAreasValues(faces, measure);
    assert forall i :: 0 <= i < |faces| ==> faces[i] == FaceAt(g, RoofRefs(g)[i]);
  }

  /** Filtering one more position adds it at the end exactly when it is a roof. */
  lemma {:induction false} RoofsAppend(g: GeometryObject, ps: seq<Position>, p: Position)
    ensures Roofs(g, ps + [p]) == Roofs(g, ps) + (if IsRoof(g, p) then [p] else [])
  {
    assert (ps + [p])[..|ps|] == ps;
  }

  /** The roofs of a prefix are a prefix of the roofs. */
  lemma {:induction false} RoofsPrefix(g: GeometryObject, ps: seq<Position>, qs: seq<Position>)
    requires ps <= qs
    ensures Roofs(g, ps) <= Roofs(g, qs)
    decreases |qs|
  {
    if |ps| < |qs| {
      var init := qs[..|qs| - 1];
      assert ps <= init;
      RoofsPrefix(g, ps, init);
      RoofsAppend(g, init, qs[|qs| - 1]);
      assert init + [qs[|qs| - 1]] == qs;
    } else {
      assert ps == qs;
    }
  }

  /** A roof position is kept exactly when it is one of `ps`. */
  lemma {:induction false} RoofsMembers(g: GeometryObject, ps: seq<Position>, p: Position)
    ensures p in Roofs(g, ps) <==> p in ps && IsRoof(g, p)
    decreases |ps|
  {
    if ps != [] {
      var init, last := ps[..|ps| - 1], ps[|ps| - 1];
      RoofsMembers(g, init, p);
      assert ps == init + [last];
    }
  }

  /** `p` is one of the roof positions of `g` exactly when it is a face of `g` whose label is
      "RoofSurface". */
  lemma RoofRefsMembers(g: GeometryObject, p: Position)
    ensures p in RoofRefs(g) <==> p in Positions(g) && IsRoof(g, p)
  {
    RoofsMembers(g, Positions(g), p);
  }

  /** The positions of a Solid are exactly the pairs of a shell index and a face index
      inside that shell. */
  lemma {:induction false} ShellsPositionsMembers(shells: seq<seq<Face>>, p: Position)
    ensures p in ShellsPositions(shells) <==> p.ShellFace? && p.shell < |shells| && p.face < |shells[p.shell]|
    decreases |shells|
  {
    if shells != [] {
      var init := shells[..|shells| - 1];
      ShellsPositionsMembers(init, p);
      var row := Row(|shells| - 1, |shells[|shells| - 1]|);
      if p.ShellFace? && p.shell == |shells| - 1 && p.face < |shells[p.shell]| {
        assert row[p.face] == p;
      }
    }
  }

  /** `p` names a face of `g`: a face index of a MultiSurface, or a shell index and a face
      index inside that shell of a Solid. */
  predicate InGeometry(g: GeometryObject, p: Position) {
    match g
    case MultiSurface(faces, _) => p.Face? && p.face < |faces|
    case Solid(shells, _) => p.ShellFace? && p.shell < |shells| && p.face < |shells[p.shell]|
    case Other(_) => false
  }

  /** The walker visits exactly the faces of the geometry object, and nothing for any
      other geometry type. */
  lemma PositionsMembers(g: GeometryObject, p: Position)
    ensures p in Positions(g) <==> InGeometry(g, p)
  {
    match g
    case MultiSurface(faces, _) =>
      if InGeometry(g, p) {
        assert Positions(g)[p.face] == p;
      }
    case Solid(shells, _) =>
      ShellsPositionsMembers(shells, p);
    case Other(_) =>
  }

  /** `p` comes strictly before `q` in shell-then-face order. */
  predicate Before(p: Position, q: Position) {
    match (p, q)
    case (Face(f), Face(g)) => f < g
    case (ShellFace(s, f), ShellFace(t, g)) => s < t || (s == t && f < g)
    case _ => false
  }

  /** Every position comes strictly before those that follow it. */
  predicate Increasing(ps: seq<Position>) {
    forall i, j :: 0 <= i < j < |ps| ==> Before(ps[i], ps[j])
  }

  /** A Solid's positions come shell by shell and, inside a shell, face by face. */
  lemma {:induction false} ShellsPositionsIncreasing(shells: seq<seq<Face>>)
    ensures Increasing(ShellsPositions(shells))
    decreases |shells|
  {
    if shells != [] {
      var init := shells[..|shells| - 1];
      var front, row := ShellsPositions(init), Row(|shells| - 1, |shells[|shells| - 1]|);
      ShellsPositionsIncreasing(init);
      forall i | 0 <= i < |front|
        ensures front[i].ShellFace? && front[i].shell < |shells| - 1
      {
        ShellsPositionsMembers(init, front[i]);
      }
      var all := front + row;
      forall i, j | 0 <= i < j < |all|
        ensures Before(all[i], all[j])
      {
        if j < |front| {
          assert all[i] == front[i] && all[j] == front[j];
        } else if i < |front| {
          assert all[i] == front[i];
        }
      }
    }
  }

  /** The walker's positions come in strictly increasing shell-then-face order. */
  lemma PositionsIncreasing(g: GeometryObject)
    ensures Increasing(Positions(g))
  {
    if g.Solid? {
      ShellsPositionsIncreasing(g.shells);
    }
  }

  /** Filtering keeps the order of the positions. */
  lemma {:induction false} RoofsIncreasing(g: GeometryObject, ps: seq<Position>)
    requires Increasing(ps)
    ensures Increasing(Roofs(g, ps))
    decreases |ps|
  {
    if ps != [] {
      var init, last := ps[..|ps| - 1], ps[|ps| - 1];
      RoofsIncreasing(g, init);
      var kept := Roofs(g, init);
      if IsRoof(g, last) {
        forall i | 0 <= i < |kept|
          ensures Before(kept[i], last)
        {
          RoofsMembers(g, init, kept[i]);
          var j :| 0 <= j < |init| && init[j] == kept[i];
          assert ps[j] == init[j];
        }
        var all := kept + [last];
        forall i, j | 0 <= i < j < |all|
          ensures Before(all[i], all[j])
        {
          if j < |kept| {
            assert all[i] == kept[i] && all[j] == kept[j];
          } else {
            assert all[i] == kept[i];
          }
        }
      }
    }
  }

  /** The roof areas come out in shell-then-face order: each roof position is visited once,
      strictly after the one before it. */
  lemma RoofRefsIncreasing(g: GeometryObject)
    ensures Increasing(RoofRefs(g))
  {
    PositionsIncreasing(g);
    RoofsIncreasing(g, Positions(g));
  }

  /** Positions none of which is a roof give no roof positions. */
  lemma {:induction false} RoofsNone(g: GeometryObject, ps: seq<Position>)
    requires forall i :: 0 <= i < |ps| ==> !IsRoof(g, ps[i])
    ensures Roofs(g, ps) == []
    decreases |ps|
  {
    if ps != [] {
      RoofsNone(g, ps[..|ps| - 1]);
    }
  }

  /** A geometry object without semantics, without any surface labelled "RoofSurface", or of
      another type has no roof areas. */
  lemma NoRoofLabelNoRoofAreas(g: GeometryObject, measure: Measure)
    requires g.Other? || g.semantics.None? || g.semantics.value.surfaces.None?
          || forall j :: 0 <= j < |g.semantics.value.surfaces.value| ==> g.semantics.value.surfaces.value[j].kind != Some(Roof)
    ensures RoofAreas(g, measure) == Success([])
  {
    var ps := Positions(g);
    forall i | 0 <= i < |ps|
      ensures !IsRoof(g, ps[i])
    {
    }
    RoofsNone(g, ps);
  }

  /** One more position: a non-roof changes nothing, a roof adds its area or fails. */
  lemma {:induction false} RoofAreasStep(g: GeometryObject, ps: seq<Position>, p: Position, measure: Measure)
    ensures !IsRoof(g, p) ==> RoofAreasAt(g, ps + [p], measure) == RoofAreasAt(g, ps, measure)
    ensures IsRoof(g, p) ==>
      RoofAreasAt(g, ps + [p], measure) == FacesAreas(FacesAt(g, Roofs(g, ps)) + [FaceAt(g, p)], measure)
  {
    RoofsAppend(g, ps, p);
    if IsRoof(g, p) {
      assert FacesAt(g, Roofs(g, ps + [p])) == FacesAt(g, Roofs(g, ps)) + [FaceAt(g, p)];
    } else {
      assert Roofs(g, ps + [p]) == Roofs(g, ps);
    }
  }

  /** A failing roof face among the first positions fails the whole geometry object. */
  lemma {:induction false} RoofAreasPrefixFailure(g: GeometryObject, ps: seq<Position>, measure: Measure)
    requires ps <= Positions(g) && RoofAreasAt(g, ps, measure).Failure?
    ensures RoofAreas(g, measure) == RoofAreasAt(g, ps, measure)
  {
    RoofsPrefix(g, ps, Positions(g));
    var short, long := FacesAt(g, Roofs(g, ps)), FacesAt(g, RoofRefs(g));
    assert short <= long;
    FacesAreasPrefixFailure(short, long, measure);
  }

  /** The positions of the first `k` shells are a prefix of all positions. */
  lemma {:induction false} ShellsPositionsPrefix(shells: seq<seq<Face>>, k: nat)
    requires k <= |shells|
    ensures ShellsPositions(shells[..k]) <= ShellsPositions(shells)
    decreases |shells|
  {
    if k < |shells| {
      var init := shells[..|shells| - 1];
      assert init[..k] == shells[..k];
      ShellsPositionsPrefix(init, k);
    } else {
      assert shells[..k] == shells;
    }
  }

  /** The positions visited up to face `f` of shell `s` are a prefix of all positions. */
  lemma {:induction false} ShellVisitPrefix(shells: seq<seq<Face>>, s: nat, f: nat)
    requires s < |shells| && f <= |shells[s]|
    ensures ShellsPositions(shells[..s]) + Row(s, f) <= ShellsPositions(shells)
    ensures ShellsPositions(shells[..s]) + Row(s, |shells[s]|) == ShellsPositions(shells[..s + 1])
  {
    var next := shells[..s + 1];
    assert next[..s] == shells[..s];
    ShellsPositionsPrefix(shells, s + 1);
    assert Row(s, f) <= Row(s, |shells[s]|);
  }

  /** `extract_roof_surfaces`: walk every face of the geometry object, look up its label,
      and append the area of each roof face; the first IndexError of an area computation
      ends the walk. Any other geometry type has no roof faces. */
  method ExtractRoofSurfaces(g: GeometryObject, vertices: seq<Vertex>, t: Transform, norm: Point -> real)
    returns (r: Result<seq<real>, Error>)
    ensures r == RoofAreas(g, SurfaceArea(vertices, t, norm))
  {
    match g {
    case Solid(_, _) =>
      r := ExtractSolidRoofs(g, vertices, t, norm);
    case MultiSurface(_, _) =>
      r := ExtractMultiSurfaceRoofs(g, vertices, t, norm);
    case Other(_) =>
      r := Success([]);
    }
  }

  /** The Solid branch of `extract_roof_surfaces`: shell by shell. */
  method ExtractSolidRoofs(g: GeometryObject, vertices: seq<Vertex>, t: Transform, norm: Point -> real)
    returns (r: Result<seq<real>, Error>)
    requires g.Solid?
    ensures r == RoofAreas(g, SurfaceArea(vertices, t, norm))
  {
    var shells := g.shells;
    var roofAreas: seq<real> := [];
    for s := 0 to |shells|
      invariant RoofAreasAt(g, ShellsPositions(shells[..s]), SurfaceArea(vertices, t, norm)) == Success(roofAreas)
    {
      var next := ExtractShellRoofs(g, s, roofAreas, vertices, t, norm);
      if next.Failure? {
        return next;
      }
      roofAreas := next.value;
    }
    assert shells[..|shells|] == shells;
    r := Success(roofAreas);
  }

  /** One face of a Solid's shell in the walk: a face that is not a roof leaves the areas
      as they are, a roof face appends its area, and a roof face whose area computation
      fails ends the walk of the whole geometry object with that error. */
  lemma ShellFaceStep(g: GeometryObject, s: nat, f: nat, acc: seq<real>, measure: Measure)
    requires g.Solid? && s < |g.shells| && f < |g.shells[s]|
    requires RoofAreasAt(g, ShellsPositions(g.shells[..s]) + Row(s, f), measure) == Success(acc)
    ensures var next := ShellsPositions(g.shells[..s]) + Row(s, f + 1);
      && (!IsRoof(g, ShellFace(s, f)) ==> RoofAreasAt(g, next, measure) == Success(acc))
      && (IsRoof(g, ShellFace(s, f)) && measure(g.shells[s][f]).Success? ==>
            RoofAreasAt(g, next, measure) == Success(acc + [measure(g.shells[s][f]).value]))
      && (IsRoof(g, ShellFace(s, f)) && measure(g.shells[s][f]).Failure? ==>
            RoofAreas(g, measure) == Failure(measure(g.shells[s][f]).error))
  {
    var visited, p := ShellsPositions(g.shells[..s]) + Row(s, f), ShellFace(s, f);
    assert ShellsPositions(g.shells[..s]) + Row(s, f + 1) == visited + [p];
    RoofAreasStep(g, visited, p, measure);
    if IsRoof(g, p) {
      FacesAreasAppend(FacesAt(g, Roofs(g, visited)), FaceAt(g, p), measure);
      assert FaceAt(g, p) == g.shells[s][f];
      if measure(g.shells[s][f]).Failure? {
        ShellVisitPrefix(g.shells, s, f + 1);
        RoofAreasPrefixFailure(g, visited + [p], measure);
      }
    }
  }

  /** One shell of a Solid, face by face, appending to the areas `acc` of the shells
      before it. Its result is the areas up to the end of this shell, or the error that
      ends the whole walk. */
  method ExtractShellRoofs(g: GeometryObject, s: nat, acc: seq<real>, vertices: seq<Vertex>, t: Transform,
                           norm: Point -> real)
    returns (r: Result<seq<real>, Error>)
    requires g.Solid? && s < |g.shells|
    requires RoofAreasAt(g, ShellsPositions(g.shells[..s]), SurfaceArea(vertices, t, norm)) == Success(acc)
    ensures r.Success? ==> r == RoofAreasAt(g, ShellsPositions(g.shells[..s + 1]), SurfaceArea(vertices, t, norm))
    ensures r.Failure? ==> r == RoofAreas(g, SurfaceArea(vertices, t, norm))
  {
    ghost var measure := SurfaceArea(vertices, t, norm);
    var shell, semantics := g.shells[s], g.semantics;
    assert ShellsPositions(g.shells[..s]) + Row(s, 0) == ShellsPositions(g.shells[..s]);
    var roofAreas := acc;
    for f := 0 to |shell|
      invariant RoofAreasAt(g, ShellsPositions(g.shells[..s]) + Row(s, f), measure) == Success(roofAreas)
    {
      ShellFaceStep(g, s, f, roofAreas, measure);
      var kind := SemanticType(ShellFace(s, f), semantics, SolidType);
      if kind == Some(Roof) {
        var area := CalculateSurfaceArea(shell[f], vertices, t, norm);
        if area.Failure? {
          return Failure(area.error);
        }
        roofAreas := roofAreas + [area.value];
      }
    }
    ShellVisitPrefix(g.shells, s, |shell|);
    r := Success(roofAreas);
  }

  /** The MultiSurface branch of `extract_roof_surfaces`: face by face. */
  method ExtractMultiSurfaceRoofs(g: GeometryObject, vertices: seq<Vertex>, t: Transform, norm: Point -> real)
    returns (r: Result<seq<real>, Error>)
    requires g.MultiSurface?
    ensures r == RoofAreas(g, SurfaceArea(vertices, t, norm))
  {
    ghost var measure := SurfaceArea(vertices, t, norm);
    var faces, semantics := g.faces, g.semantics;
    var roofAreas: seq<real> := [];
    for i := 0 to |faces|
      invariant RoofAreasAt(g, Positions(g)[..i], measure) == Success(roofAreas)
    {
      var p := Face(i);
      assert Positions(g)[..i + 1] == Positions(g)[..i] + [p];
      RoofAreasStep(g, Positions(g)[..i], p, measure);
      FacesAreasAppend(FacesAt(g, Roofs(g, Positions(g)[..i])), FaceAt(g, p), measure);
      var kind := SemanticType(p, semantics, MultiSurfaceType);
      if kind == Some(Roof) {
        var area := CalculateSurfaceArea(faces[i], vertices, t, norm);
        assert area == measure(FaceAt(g, p));
        if area.Failure? {
          RoofAreasPrefixFailure(g, Positions(g)[..i + 1], measure);
          return Failure(area.error);
        }
        roofAreas := roofAreas + [area.value];
      }
    }
    assert Positions(g)[..|faces|] == Positions(g);
    r := Success(roofAreas);
  }

  // ---------------------------------------------------------------------------
  // Roof area of a city object

  /** `sum` of a list of areas. */
  function Sum(xs: seq<real>): (r: real)
    ensures (forall i :: 0 <= i < |xs| ==> 0.0 <= xs[i]) ==> 0.0 <= r
    ensures |xs| == 1 ==> r == xs[0]
    decreases |xs|
  {
    if xs == [] then 0.0 else Sum(xs[..|xs| - 1]) + xs[|xs| - 1]
  }

  /** `sum` is additive over concatenation. */
  lemma {:induction false} SumAppend(xs: seq<real>, ys: seq<real>)
    ensures Sum(xs + ys) == Sum(xs) + Sum(ys)
    decreases |ys|
  {
    if ys == [] {
      assert xs + ys == xs;
    } else {
      var init := ys[..|ys| - 1];
      SumAppend(xs, init);
      assert (xs + ys)[..|xs + ys| - 1] == xs + init;
    }
  }

  /** The roof areas of one geometry object: `extract_roof_surfaces` for a fixed vertex list,
      transform and square root, kept abstract so that the sum over geometry objects is
      stated once for any such walk. */
  type RoofExtraction = GeometryObject -> Result<seq<real>, Error>

  /** The walk the processor uses: `extract_roof_surfaces` with the given area computation. */
  function ExtractRoofs(measure: Measure): RoofExtraction {
    g => RoofAreas(g, measure)
  }

  /** What `calculate_roof_area_for_object` computes for the list of geometry objects of a
      city object: the sum over the geometry objects of the sum of their roof areas, or the
      error of the first geometry object whose roof areas cannot be computed. No geometry
      gives 0.0. */
  function ObjectRoofArea(geometries: seq<GeometryObject>, extract: RoofExtraction)
    : (r: Result<real, Error>)
    ensures geometries == [] ==> r == Success(0.0)
    decreases |geometries|
  {
    if geometries == [] then Success(0.0)
    else
      var before := ObjectRoofArea(geometries[..|geometries| - 1], extract);
      var areas := extract(geometries[|geometries| - 1]);
      if before.Failure? then before
      else if areas.Failure? then Failure(areas.error)
      else Success(before.value + Sum(areas.value))
  }

  /** The roof area of a city object is additive over its geometry objects, and fails
      exactly when either part fails. */
  lemma {:induction false} ObjectRoofAreaAppend(gs: seq<GeometryObject>, hs: seq<GeometryObject>, extract: RoofExtraction)
    ensures ObjectRoofArea(gs + hs, extract).Success?
        <==> ObjectRoofArea(gs, extract).Success? && ObjectRoofArea(hs, extract).Success?
    ensures ObjectRoofArea(gs + hs, extract).Success? ==>
      ObjectRoofArea(gs + hs, extract).value
        == ObjectRoofArea(gs, extract).value + ObjectRoofArea(hs, extract).value
    decreases |hs|
  {
    if hs == [] {
      assert gs + hs == gs;
    } else {
      var init := hs[..|hs| - 1];
      ObjectRoofAreaAppend(gs, init, extract);
      assert (gs + hs)[..|gs + hs| - 1] == gs + init;
      assert (gs + hs)[|gs + hs| - 1] == hs[|hs| - 1];
    }
  }

  /** One more geometry object: its roof areas are added, or its error ends the sum. */
  lemma {:induction false} ObjectRoofAreaStep(gs: seq<GeometryObject>, g: GeometryObject, extract: RoofExtraction)
    ensures ObjectRoofArea(gs, extract).Failure? ==> ObjectRoofArea(gs + [g], extract) == ObjectRoofArea(gs, extract)
    ensures ObjectRoofArea(gs, extract).Success? && extract(g).Failure? ==>
      ObjectRoofArea(gs + [g], extract) == Failure(extract(g).error)
    ensures ObjectRoofArea(gs, extract).Success? && extract(g).Success? ==>
      ObjectRoofArea(gs + [g], extract) == Success(ObjectRoofArea(gs, extract).value + Sum(extract(g).value))
  {
    var all := gs + [g];
    assert all[..|all| - 1] == gs && all[|all| - 1] == g;
  }

  /** A geometry object without roof faces adds nothing to the roof area. */
  lemma {:induction false} ObjectRoofAreaNoRoofs(gs: seq<GeometryObject>, g: GeometryObject, extract: RoofExtraction)
    requires extract(g) == Success([])
    ensures ObjectRoofArea(gs + [g], extract) == ObjectRoofArea(gs, extract)
  {
    assert (gs + [g])[..|gs|] == gs;
  }

  /** Once a prefix fails, the whole list fails. */
  lemma {:induction false} ObjectRoofAreaPrefixFailure(gs: seq<GeometryObject>, hs: seq<GeometryObject>,
                                                       extract: RoofExtraction)
    requires gs <= hs && ObjectRoofArea(gs, extract).Failure?
    ensures ObjectRoofArea(hs, extract) == ObjectRoofArea(gs, extract)
    decreases |hs|
  {
    if |gs| < |hs| {
      var init := hs[..|hs| - 1];
      assert gs <= init;
      ObjectRoofAreaPrefixFailure(gs, init, extract);
    } else {
      assert gs == hs;
    }
  }

  /** A failure is the error of the first geometry object whose roof areas cannot be
      computed: every geometry object before it succeeds. */
  lemma {:induction false} ObjectRoofAreaFirstFailure(geometries: seq<GeometryObject>, extract: RoofExtraction)
    ensures ObjectRoofArea(geometries, extract).Failure? ==>
      exists i :: 0 <= i < |geometries| && extract(geometries[i]) == Failure(ObjectRoofArea(geometries, extract).error)
                  && forall j :: 0 <= j < i ==> extract(geometries[j]).Success?
    decreases |geometries|
  {
    if geometries != [] && ObjectRoofArea(geometries, extract).Failure? {
      var init := geometries[..|geometries| - 1];
      ObjectRoofAreaFirstFailure(init, extract);
      if ObjectRoofArea(init, extract).Failure? {
        var i :| 0 <= i < |init| && extract(init[i]) == Failure(ObjectRoofArea(init, extract).error)
                 && forall j :: 0 <= j < i ==> extract(init[j]).Success?;
        assert geometries[i] == init[i];
        assert forall j :: 0 <= j < i ==> geometries[j] == init[j];
      } else {
        ObjectRoofAreaAllSucceed(init, extract);
        assert forall j :: 0 <= j < |init| ==> geometries[j] == init[j];
      }
    }
  }

  /** A sum that succeeds had every geometry object's roof areas succeed. */
  lemma {:induction false} ObjectRoofAreaAllSucceed(geometries: seq<GeometryObject>, extract: RoofExtraction)
    requires ObjectRoofArea(geometries, extract).Success?
    ensures forall i :: 0 <= i < |geometries| ==> extract(geometries[i]).Success?
    decreases |geometries|
  {
    if geometries != [] {
      var init := geometries[..|geometries| - 1];
      ObjectRoofAreaAllSucceed(init, extract);
      assert forall i :: 0 <= i < |init| ==> geometries[i] == init[i];
    }
  }

  /** A failing walk over a geometry object names the first roof face whose area computation
      fails; every roof face before it succeeds. */
  lemma RoofAreasFirstFailure(g: GeometryObject, measure: Measure)
    ensures RoofAreas(g, measure).Failure? ==>
      exists i :: 0 <= i < |RoofRefs(g)| && measure(FaceAt(g, RoofRefs(g)[i])) == Failure(RoofAreas(g, measure).error)
                  && forall j :: 0 <= j < i ==> measure(FaceAt(g, RoofRefs(g)[j])).Success?
  {
    var faces := FacesAt(g, RoofRefs(g));
    FacesAreasFirstFailure(faces, measure);
    assert forall i :: 0 <= i < |faces| ==> faces[i] == FaceAt(g, RoofRefs(g)[i]);
  }

  /** Under the processor's area computation the only error is IndexError: an index into
      the vertex list that is out of range. */
  lemma ObjectRoofAreaIndexError(geometries: seq<GeometryObject>, vertices: seq<Vertex>, t: Transform,
                                 norm: Point -> real)
    ensures ObjectRoofArea(geometries, ExtractRoofs(SurfaceArea(vertices, t, norm))).Failure? ==>
      ObjectRoofArea(geometries, ExtractRoofs(SurfaceArea(vertices, t, norm))).error == IndexError
  {
    var measure := SurfaceArea(vertices, t, norm);
    var extract := ExtractRoofs(measure);
    ObjectRoofAreaFirstFailure(geometries, extract);
    if ObjectRoofArea(geometries, extract).Failure? {
      var i :| 0 <= i < |geometries| && extract(geometries[i]) == Failure(ObjectRoofArea(geometries, extract).error);
      RoofAreasFirstFailure(geometries[i], measure);
    }
  }

  /** One turn of the loop over geometry objects: the next object's roof areas are added
      to the running total, or their error is the result for the whole list. */
  lemma {:induction false} ObjectRoofAreaLoopStep(geometries: seq<GeometryObject>, i: nat, total: real,
                                                  extract: RoofExtraction, areas: Result<seq<real>, Error>)
    requires i < |geometries| && ObjectRoofArea(geometries[..i], extract) == Success(total)
    requires areas == extract(geometries[i])
    ensures areas.Failure? ==> ObjectRoofArea(geometries, extract) == Failure(areas.error)
    ensures areas.Success? ==> ObjectRoofArea(geometries[..i + 1], extract) == Success(total + Sum(areas.value))
  {
    var done := geometries[..i + 1];
    assert done == geometries[..i] + [geometries[i]];
    ObjectRoofAreaStep(geometries[..i], geometries[i], extract);
    if areas.Failure? {
      ObjectRoofAreaPrefixFailure(done, geometries, extract);
    }
  }

  /** A walk that agrees with `ExtractRoofs(measure)` on every geometry object, known only
      through that agreement. This lemma and the two after it are proof devices and model
      nothing in the processor: they let the loop of `CalculateRoofAreaForObject` reason
      about an abstract walk rather than the concrete one, whose unfolding makes the proof
      too costly, and convert back at the method's exits. */
  lemma ExtractionOf(measure: Measure) returns (extract: RoofExtraction)
    ensures forall g {:trigger RoofAreas(g, measure)} :: extract(g) == RoofAreas(g, measure)
  {
    extract := ExtractRoofs(measure);
  }

  /** Walks that agree on every geometry object give the same roof area (a proof device,
      see `ExtractionOf`). */
  lemma {:induction false} ObjectRoofAreaSameWalk(geometries: seq<GeometryObject>, extract: RoofExtraction,
                                                  other: RoofExtraction)
    requires forall g :: extract(g) == other(g)
    ensures ObjectRoofArea(geometries, extract) == ObjectRoofArea(geometries, other)
    decreases |geometries|
  {
    if geometries != [] {
      ObjectRoofAreaSameWalk(geometries[..|geometries| - 1], extract, other);
    }
  }

  /** A walk known only through its agreement with `ExtractRoofs(measure)` gives the
      same roof area as that walk (a proof device, see `ExtractionOf`). */
  lemma ObjectRoofAreaOfExtraction(geometries: seq<GeometryObject>, extract: RoofExtraction, measure: Measure)
    requires forall g {:trigger RoofAreas(g, measure)} :: extract(g) == RoofAreas(g, measure)
    ensures ObjectRoofArea(geometries, extract) == ObjectRoofArea(geometries, ExtractRoofs(measure))
  {
    ObjectRoofAreaSameWalk(geometries, extract, ExtractRoofs(measure));
  }

  /** `calculate_roof_area_for_object`: for each geometry object in turn, walk its roof faces
      and add the sum of their areas to the running total; an IndexError ends the loop. */
  method CalculateRoofAreaForObject(geometries: seq<GeometryObject>, vertices: seq<Vertex>, t: Transform,
                                    norm: Point -> real)
    returns (r: Result<real, Error>)
    ensures r == ObjectRoofArea(geometries, ExtractRoofs(SurfaceArea(vertices, t, norm)))
  {
    ghost var extract := ExtractionOf(SurfaceArea(vertices, t, norm));
    var total := 0.0;
    for i := 0 to |geometries|
      invariant ObjectRoofArea(geometries[..i], extract) == Success(total)
    {
      var roofAreas := ExtractRoofSurfaces(geometries[i], vertices, t, norm);
      ObjectRoofAreaLoopStep(geometries, i, total, extract, roofAreas);
      if roofAreas.Failure? {
        ObjectRoofAreaOfExtraction(geometries, extract, SurfaceArea(vertices, t, norm));
        return Failure(roofAreas.error);
      }
      total := total + Sum(roofAreas.value);
    }
    assert geometries[..|geometries|] == geometries;
    ObjectRoofAreaOfExtraction(geometries, extract, SurfaceArea(vertices, t, norm));
    r := Success(total);
  }

  // ---------------------------------------------------------------------------
  // The document

  /** A JSON value of an attribute. */
  datatype Json =
    | JNull
    | JBool(b: bool)
    | JNumber(n: real)
    | JString(s: string)
    | JArray(items: seq<Json>)
    | JObject(members: map<string, Json>)

  /** A city object: its type, its geometry objects (a missing "geometry" is the empty list)
      and its "attributes" object, if it has one. */
  datatype CityObject = CityObject(kind: string, geometry: seq<GeometryObject>, attributes: Option<map<string, Json>>)

  const RoofAttribute := "total_area_roof"

  /** The object with `total_area_roof` set to `area` in its attributes, which are created
      empty when absent. */
  function WithRoofArea(obj: CityObject, area: real): (r: CityObject)
    ensures r.kind == obj.kind && r.geometry == obj.geometry && r.attributes.Some?
    ensures r.attributes.value.Keys == (if obj.attributes.Some? then obj.attributes.value.Keys else {}) + {RoofAttribute}
    ensures r.attributes.value[RoofAttribute] == JNumber(area)
    ensures obj.attributes.Some? ==>
      forall key :: key in obj.attributes.value && key != RoofAttribute ==> r.attributes.value[key] == obj.attributes.value[key]
  {
    var attributes := if obj.attributes.Some? then obj.attributes.value else map[];
    obj.(attributes := Some(attributes[RoofAttribute := JNumber(area)]))
  }

  /** The transform used: the document's own, or scale 1 and translate 0 when it has none. */
  function EffectiveTransform(transform: Option<Transform>): (t: Transform)
    ensures transform.Some? ==> t == transform.value
    ensures transform.None? ==> forall v :: TransformVertex(v, t) == Point(v.x as real, v.y as real, v.z as real)
  {
    if transform.Some? then transform.value else Identity
  }

  /** Every city object's roof area can be computed. */
  predicate AllObjectsMeasurable(objects: map<string, CityObject>, extract: RoofExtraction) {
    forall id :: id in objects ==> ObjectRoofArea(objects[id].geometry, extract).Success?
  }

  /** Every city object, with its roof area written into its attributes. */
  function Annotated(objects: map<string, CityObject>, extract: RoofExtraction)
    : (r: map<string, CityObject>)
    requires AllObjectsMeasurable(objects, extract)
    ensures r.Keys == objects.Keys
  {
    map id | id in objects :: WithRoofArea(objects[id], ObjectRoofArea(objects[id].geometry, extract).value)
  }

  /** No object is added or removed; each keeps its type, its geometry and every other
      attribute, and gains `total_area_roof` holding its roof area. */
  lemma AnnotatedKeepsObjects(objects: map<string, CityObject>, extract: RoofExtraction, id: string)
    requires AllObjectsMeasurable(objects, extract) && id in objects
    ensures var obj, after := objects[id], Annotated(objects, extract)[id];
      && after.kind == obj.kind && after.geometry == obj.geometry
      && after.attributes.Some? && after.attributes.value[RoofAttribute]
         == JNumber(ObjectRoofArea(obj.geometry, extract).value)
      && (obj.attributes.Some? ==>
            forall key :: key in obj.attributes.value && key != RoofAttribute ==>
              key in after.attributes.value && after.attributes.value[key] == obj.attributes.value[key])
  {
  }

  /** Setting `total_area_roof` twice to the same area is setting it once. */
  lemma WithRoofAreaTwice(obj: CityObject, area: real)
    ensures WithRoofArea(WithRoofArea(obj, area), area) == WithRoofArea(obj, area)
  {
    var once := WithRoofArea(obj, area);
    assert once.attributes.value[RoofAttribute := JNumber(area)] == once.attributes.value;
  }

  /** Annotating an annotated document changes nothing: the roof area depends on the
      geometry alone, which the annotation leaves as it is. */
  lemma AnnotatedIdempotent(objects: map<string, CityObject>, extract: RoofExtraction)
    requires AllObjectsMeasurable(objects, extract)
    ensures AllObjectsMeasurable(Annotated(objects, extract), extract)
    ensures Annotated(Annotated(objects, extract), extract) == Annotated(objects, extract)
  {
    var once := Annotated(objects, extract);
    forall id | id in once
      ensures once[id].geometry == objects[id].geometry
    {
    }
    var twice := Annotated(once, extract);
    forall id | id in objects
      ensures twice[id] == once[id]
    {
      WithRoofAreaTwice(objects[id], ObjectRoofArea(objects[id].geometry, extract).value);
    }
  }

  /** Some of the objects carry their roof area and the rest are as they were: the state
      an IndexError in the middle of the loop leaves behind. */
  predicate PartlyAnnotated(objects: map<string, CityObject>, current: map<string, CityObject>,
                            extract: RoofExtraction) {
    && current.Keys == objects.Keys
    && forall id :: id in objects ==>
         || current[id] == objects[id]
         || (ObjectRoofArea(objects[id].geometry, extract).Success?
             && current[id] == WithRoofArea(objects[id], ObjectRoofArea(objects[id].geometry, extract).value))
  }

  /** Every object outside `todo` has a roof area. */
  predicate MeasuredOutside(objects: map<string, CityObject>, todo: set<string>, extract: RoofExtraction) {
    forall id :: id in objects && id !in todo ==> ObjectRoofArea(objects[id].geometry, extract).Success?
  }

  /** The objects part way through the loop: those in `todo` as they were, the others with
      their roof area. */
  function Progress(objects: map<string, CityObject>, todo: set<string>, extract: RoofExtraction): (r: map<string, CityObject>)
    requires MeasuredOutside(objects, todo, extract)
    ensures r.Keys == objects.Keys
  {
    map id | id in objects :: if id in todo then objects[id]
                              else WithRoofArea(objects[id], ObjectRoofArea(objects[id].geometry, extract).value)
  }

  /** Before the loop every object is still to do, and none has changed. */
  lemma ProgressStart(objects: map<string, CityObject>, extract: RoofExtraction)
    ensures MeasuredOutside(objects, objects.Keys, extract)
    ensures Progress(objects, objects.Keys, extract) == objects
  {
  }

  /** Writing the roof area of one more object moves it out of `todo`. */
  lemma ProgressStep(objects: map<string, CityObject>, todo: set<string>, id: string, extract: RoofExtraction)
    requires MeasuredOutside(objects, todo, extract) && id in todo && id in objects
    requires ObjectRoofArea(objects[id].geometry, extract).Success?
    ensures MeasuredOutside(objects, todo - {id}, extract)
    ensures Progress(objects, todo - {id}, extract)
         == Progress(objects, todo, extract)[id := WithRoofArea(objects[id], ObjectRoofArea(objects[id].geometry, extract).value)]
  {
  }

  /** Every state of the loop is a partly annotated document. */
  lemma ProgressPartly(objects: map<string, CityObject>, todo: set<string>, extract: RoofExtraction)
    requires MeasuredOutside(objects, todo, extract)
    ensures PartlyAnnotated(objects, Progress(objects, todo, extract), extract)
  {
  }

  /** With nothing left to do, every object carries its roof area. */
  lemma ProgressDone(objects: map<string, CityObject>, extract: RoofExtraction)
    requires MeasuredOutside(objects, {}, extract)
    ensures AllObjectsMeasurable(objects, extract)
    ensures Progress(objects, {}, extract) == Annotated(objects, extract)
  {
  }

  /** A loaded CityJSON document: the members the processing step reads, each None when the
      document lacks it. */
  class CityJson {
    var cityObjects: Option<map<string, CityObject>>
    var vertices: Option<seq<Vertex>>
    var transform: Option<Transform>

    constructor(cityObjects: Option<map<string, CityObject>>, vertices: Option<seq<Vertex>>, transform: Option<Transform>)
      ensures this.cityObjects == cityObjects && this.vertices == vertices && this.transform == transform
    {
      this.cityObjects := cityObjects;
      this.vertices := vertices;
      this.transform := transform;
    }

    /** The in-memory part of `process_cityjson`: check for "CityObjects" and "vertices",
        default the transform, then give every city object its `total_area_roof`. Only
        `cityObjects` changes, and only in attributes. */
    method ProcessCityJson(norm: Point -> real) returns (r: Outcome<Error>)
      modifies this
      ensures vertices == old(vertices) && transform == old(transform)
      ensures old(cityObjects).None? ==> r == Fail(KeyError("CityObjects")) && cityObjects == old(cityObjects)
      ensures old(cityObjects).Some? && vertices.None? ==> r == Fail(KeyError("vertices")) && cityObjects == old(cityObjects)
      ensures old(cityObjects).Some? && vertices.Some? ==>
        var objects, t := old(cityObjects).value, EffectiveTransform(transform);
        var extract := ExtractRoofs(SurfaceArea(vertices.value, t, norm));
        && (r.Pass? <==> AllObjectsMeasurable(objects, extract))
        && (r.Pass? ==> cityObjects == Some(Annotated(objects, extract)))
        && (r.Fail? ==> r.error == IndexError && cityObjects.Some? && PartlyAnnotated(objects, cityObjects.value, extract))
    {
      if cityObjects.None? {
        return Fail(KeyError("CityObjects"));
      }
      if vertices.None? {
        return Fail(KeyError("vertices"));
      }
      var objects := cityObjects.value;
      var vs := vertices.value;
      var t := EffectiveTransform(transform);
      ghost var extract := ExtractRoofs(SurfaceArea(vs, t, norm));
      var todo := objects.Keys;
      ProgressStart(objects, extract);
      while todo != {}
        invariant todo <= objects.Keys
        invariant vertices == old(vertices) && transform == old(transform)
        invariant MeasuredOutside(objects, todo, extract)
        invariant cityObjects == Some(Progress(objects, todo, extract))
        decreases todo
      {
        var id :| id in todo;
        var area := CalculateRoofAreaForObject(objects[id].geometry, vs, t, norm);
        if area.Failure? {
          ObjectRoofAreaIndexError(objects[id].geometry, vs, t, norm);
          ProgressPartly(objects, todo, extract);
          return Fail(area.error);
        }
        ProgressStep(objects, todo, id, extract);
        cityObjects := Some(cityObjects.value[id := WithRoofArea(objects[id], area.value)]);
        todo := todo - {id};
      }
      ProgressDone(objects, extract);
      r := Pass;
    }
  }
}
