/**
 * The geometry flattener of the dashboard (`extract_coordinates` in
 * streamlit_app.py): a region boundary becomes two parallel coordinate
 * columns for a path renderer, with a gap entry (Python's `None`) telling the
 * renderer to lift the pen between the polygons of a multi-polygon.
 */
module Flattener {
  import opened Wrappers

  /** A 2-D vertex of a ring. */
  datatype Point = Point(x: real, y: real)

  /** A ring is its coordinate list in order (a closed ring repeats its first vertex at the end). */
  type Ring = seq<Point>

  /** One polygon of a multi-polygon: its exterior ring and its interior rings (holes). */
  datatype Part = Part(exterior: Ring, holes: seq<Ring>)

  /** The boundary value of a region: the two geometry kinds handled, and every other kind. */
  datatype Geometry =
    | Polygon(exterior: Ring, holes: seq<Ring>)
    | MultiPolygon(parts: seq<Part>)
    | Other

  /** One entry of a coordinate column: a number, or the path-break sentinel. */
  datatype Coord = Val(v: real) | Gap

  /** The two parallel columns handed to the renderer. */
  datatype Path = Path(xs: seq<Coord>, ys: seq<Coord>)

  datatype Axis = X | Y

  function Coordinate(p: Point, axis: Axis): real
  {
    match axis
    case X => p.x
    case Y => p.y
  }

  /** One column of a ring: `list(zip(*ring.coords))[0]` or `[1]`. */
  function RingColumn(ring: Ring, axis: Axis): seq<Coord>
  {
    seq(|ring|, i requires 0 <= i < |ring| => Val(Coordinate(ring[i], axis)))
  }

  /** One column of a multi-polygon: each exterior ring followed by a gap, parts in order. */
  function PartsColumn(parts: seq<Part>, axis: Axis): seq<Coord>
  {
    if parts == [] then []
    else
      var n := |parts| - 1;
      PartsColumn(parts[..n], axis) + RingColumn(parts[n].exterior, axis) + [Gap]
  }

  /** The number of entries the parts produce: each ring's length plus one gap. */
  function PartsLength(parts: seq<Part>): nat
  {
    if parts == [] then 0
    else
      var n := |parts| - 1;
      PartsLength(parts[..n]) + |parts[n].exterior| + 1
  }

  /** The number of gap entries in a column. */
  function GapCount(col: seq<Coord>): nat
  {
    if col == [] then 0
    else GapCount(col[..|col| - 1]) + (if col[|col| - 1] == Gap then 1 else 0)
  }

  /**
   * The flattened path of a geometry: a polygon gives its exterior ring, a
   * multi-polygon its parts' exterior rings each closed by a gap, anything else
   * two empty columns. Total: no geometry makes it fail.
   */
  function Flatten(g: Geometry): Path
  {
    match g
    case Polygon(exterior, _) => Path(RingColumn(exterior, X), RingColumn(exterior, Y))
    case MultiPolygon(parts) => Path(PartsColumn(parts, X), PartsColumn(parts, Y))
    case Other => Path([], [])
  }

  /**
   * The flattener, with the loop over the parts of a multi-polygon extending
   * both columns in place.
   */
  method ExtractCoordinates(g: Geometry) returns (xs: seq<Coord>, ys: seq<Coord>)
    ensures Path(xs, ys) == Flatten(g)
  {
    match g {
      case Polygon(exterior, _) =>
        xs, ys := RingColumn(exterior, X), RingColumn(exterior, Y);
      case MultiPolygon(parts) =>
        xs, ys := [], [];
        for i := 0 to |parts|
          invariant xs == PartsColumn(parts[..i], X)
          invariant ys == PartsColumn(parts[..i], Y)
        {
          var ring := parts[i].exterior;
          assert parts[..i + 1][..i] == parts[..i];
          xs := xs + RingColumn(ring, X) + [Gap];
          ys := ys + RingColumn(ring, Y) + [Gap];
        }
        assert parts[..|parts|] == parts;
      case Other =>
        xs, ys := [], [];
    }
  }

  // ---------------------------------------------------------------------
  // The polygon and fallback cases

  /**
   * A polygon flattens to its exterior ring verbatim: same length, each entry
   * the ring's coordinate at that position, no gap, and nothing of its holes.
   */
  lemma FlattenPolygon(exterior: Ring, holes: seq<Ring>)
    ensures var p := Flatten(Polygon(exterior, holes));
      && |p.xs| == |p.ys| == |exterior|
      && (forall i :: 0 <= i < |exterior| ==> p.xs[i] == Val(exterior[i].x) && p.ys[i] == Val(exterior[i].y))
      && Gap !in p.xs && Gap !in p.ys
      && p == Flatten(Polygon(exterior, []))
  {
  }

  /** Unsupported geometry and an empty multi-polygon both give two empty columns. */
  lemma FlattenEmpty(g: Geometry)
    requires g.Other? || (g.MultiPolygon? && g.parts == [])
    ensures Flatten(g) == Path([], [])
  {
  }

  // ---------------------------------------------------------------------
  // The multi-polygon case

  lemma {:induction false} PartsColumnLength(parts: seq<Part>, axis: Axis)
    ensures |PartsColumn(parts, axis)| == PartsLength(parts)
  {
    if parts != [] {
      PartsColumnLength(parts[..|parts| - 1], axis);
    }
  }

  /** Flattening distributes over concatenation of the part lists. */
  lemma {:induction false} PartsColumnAppend(p: seq<Part>, q: seq<Part>, axis: Axis)
    ensures PartsColumn(p + q, axis) == PartsColumn(p, axis) + PartsColumn(q, axis)
  {
    if q == [] {
      assert p + q == p;
    } else {
      var n := |q| - 1;
      assert (p + q)[..|p + q| - 1] == p + q[..n];
      PartsColumnAppend(p, q[..n], axis);
    }
  }

  /**
   * The multi-polygon columns are, in part order, each part's exterior column
   * followed by one gap.
   */
  lemma MultiPolygonConcat(first: Part, rest: seq<Part>, axis: Axis)
    ensures PartsColumn([first] + rest, axis)
         == RingColumn(first.exterior, axis) + [Gap] + PartsColumn(rest, axis)
  {
    PartsColumnAppend([first], rest, axis);
    assert [first][..0] == [];
  }

  /** The column of a prefix of the parts is a prefix of the full column. */
  lemma {:induction false} PartsColumnPrefix(parts: seq<Part>, j: nat, axis: Axis)
    requires j <= |parts|
    ensures PartsColumn(parts[..j], axis) <= PartsColumn(parts, axis)
  {
    assert parts == parts[..j] + parts[j..];
    PartsColumnAppend(parts[..j], parts[j..], axis);
  }

  /**
   * Positions in a multi-polygon column: part `j` starts at the total length of
   * the parts before it, holds its ring's coordinates in order, and is closed
   * by a gap right after its last coordinate.
   */
  lemma PartsColumnAt(parts: seq<Part>, j: nat, axis: Axis)
    requires j < |parts|
    ensures var col := PartsColumn(parts, axis);
      var start := PartsLength(parts[..j]);
      var ring := parts[j].exterior;
      && start + |ring| < |col|
      && (forall k :: 0 <= k < |ring| ==> col[start + k] == Val(Coordinate(ring[k], axis)))
      && col[start + |ring|] == Gap
  {
    PartsColumnPrefix(parts, j + 1, axis);
    assert parts[..j + 1][..j] == parts[..j];
    PartsColumnLength(parts[..j], axis);
  }

  /** The position of the gap that closes part `j`. */
  function PartEnd(parts: seq<Part>, j: nat): int
    requires j < |parts|
  {
    PartsLength(parts[..j + 1]) - 1
  }

  /** A multi-polygon column has a gap exactly at the last position of each part. */
  lemma {:induction false} PartsColumnGaps(parts: seq<Part>, axis: Axis)
    ensures var col := PartsColumn(parts, axis);
      forall i :: 0 <= i < |col| ==>
        (col[i] == Gap <==> exists j :: 0 <= j < |parts| && i == PartEnd(parts, j))
  {
    if parts != [] {
      var n := |parts| - 1;
      var init := parts[..n];
      PartsColumnGaps(init, axis);
      PartsColumnLength(init, axis);
      PartsColumnLength(parts, axis);
      assert parts[..n + 1] == parts;
      assert PartEnd(parts, n) == PartsLength(parts) - 1;
      forall j | 0 <= j < n
        ensures PartEnd(parts, j) == PartEnd(init, j) < PartsLength(init)
      {
        assert parts[..j + 1] == init[..j + 1];
        PartsLengthPrefix(init, j + 1);
        assert init[..j + 1][..j] == init[..j];
      }
      var col := PartsColumn(parts, axis);
      forall i | 0 <= i < |col|
        ensures col[i] == Gap <==> exists j :: 0 <= j < |parts| && i == PartEnd(parts, j)
      {
        if i < PartsLength(init) {
          assert col[i] == PartsColumn(init, axis)[i];
        }
      }
    }
  }

  /** The parts before a position contribute no more than all the parts. */
  lemma {:induction false} PartsLengthPrefix(parts: seq<Part>, j: nat)
    requires j <= |parts|
    ensures PartsLength(parts[..j]) <= PartsLength(parts)
  {
    if j < |parts| {
      var n := |parts| - 1;
      assert parts[..n][..j] == parts[..j];
      PartsLengthPrefix(parts[..n], j);
    } else {
      assert parts[..j] == parts;
    }
  }

  lemma {:induction false} GapCountAppend(a: seq<Coord>, b: seq<Coord>)
    ensures GapCount(a + b) == GapCount(a) + GapCount(b)
  {
    if b != [] {
      var n := |b| - 1;
      assert (a + b)[..|a + b| - 1] == a + b[..n];
      GapCountAppend(a, b[..n]);
    } else {
      assert a + b == a;
    }
  }

  lemma {:induction false} RingColumnNoGap(ring: Ring, axis: Axis)
    ensures GapCount(RingColumn(ring, axis)) == 0
  {
    if ring != [] {
      var n := |ring| - 1;
      assert RingColumn(ring, axis)[..n] == RingColumn(ring[..n], axis);
      RingColumnNoGap(ring[..n], axis);
    }
  }

  /**
   * A multi-polygon with k parts yields exactly k gaps in each column and
   * Σ(|ring_i| + 1) entries.
   */
  lemma {:induction false} MultiPolygonShape(parts: seq<Part>, axis: Axis)
    ensures GapCount(PartsColumn(parts, axis)) == |parts|
    ensures |PartsColumn(parts, axis)| == PartsLength(parts)
  {
    PartsColumnLength(parts, axis);
    if parts != [] {
      var n := |parts| - 1;
      MultiPolygonShape(parts[..n], axis);
      RingColumnNoGap(parts[n].exterior, axis);
      GapCountAppend(PartsColumn(parts[..n], axis), RingColumn(parts[n].exterior, axis));
      GapCountAppend(PartsColumn(parts[..n], axis) + RingColumn(parts[n].exterior, axis), [Gap]);
      assert GapCount([Gap]) == GapCount([]) + 1;
    }
  }

  // ---------------------------------------------------------------------
  // Both columns together

  /** The x and y columns of a multi-polygon have equal length and gaps in the same places. */
  lemma {:induction false} PartsColumnsAligned(parts: seq<Part>)
    ensures |PartsColumn(parts, X)| == |PartsColumn(parts, Y)|
    ensures forall i :: 0 <= i < |PartsColumn(parts, X)| ==>
      (PartsColumn(parts, X)[i] == Gap <==> PartsColumn(parts, Y)[i] == Gap)
  {
    if parts != [] {
      PartsColumnsAligned(parts[..|parts| - 1]);
    }
  }

  /** For every geometry, both columns have equal length and a gap at the same positions. */
  lemma FlattenAligned(g: Geometry)
    ensures |Flatten(g).xs| == |Flatten(g).ys|
    ensures forall i :: 0 <= i < |Flatten(g).xs| ==> (Flatten(g).xs[i] == Gap <==> Flatten(g).ys[i] == Gap)
  {
    if g.MultiPolygon? {
      PartsColumnsAligned(g.parts);
    }
  }

  /** Two triangles flatten to xs = [0,1,1,None,2,3,3,None], ys = [0,0,1,None,2,2,3,None]. */
  lemma TwoTrianglesExample()
    ensures Flatten(MultiPolygon([
              Part([Point(0.0, 0.0), Point(1.0, 0.0), Point(1.0, 1.0)], []),
              Part([Point(2.0, 2.0), Point(3.0, 2.0), Point(3.0, 3.0)], [])]))
         == Path([Val(0.0), Val(1.0), Val(1.0), Gap, Val(2.0), Val(3.0), Val(3.0), Gap],
                 [Val(0.0), Val(0.0), Val(1.0), Gap, Val(2.0), Val(2.0), Val(3.0), Gap])
  {
    var a := Part([Point(0.0, 0.0), Point(1.0, 0.0), Point(1.0, 1.0)], []);
    var b := Part([Point(2.0, 2.0), Point(3.0, 2.0), Point(3.0, 3.0)], []);
    MultiPolygonConcat(a, [b], X);
    MultiPolygonConcat(a, [b], Y);
    MultiPolygonConcat(b, [], X);
    MultiPolygonConcat(b, [], Y);
  }

  // ---------------------------------------------------------------------
  // The flattener as written

  /** The exceptions the flattener's unzipping can raise. */
  datatype FlattenError = IndexError | ValueError

  /** A ring's `coords`: one `(x, y)` tuple per vertex. */
  function CoordTuples(ring: Ring): seq<seq<real>>
  {
    seq(|ring|, i requires 0 <= i < |ring| => [ring[i].x, ring[i].y])
  }

  /** The length of the shortest tuple: how many columns `zip` yields. */
  function MinWidth(rows: seq<seq<real>>): (w: nat)
    requires rows != []
    ensures forall i :: 0 <= i < |rows| ==> w <= |rows[i]|
    ensures exists i :: 0 <= i < |rows| && w == |rows[i]|
  {
    if |rows| == 1 then |rows[0]|
    else
      var w := MinWidth(rows[1..]);
      assert forall i :: 1 <= i < |rows| ==> rows[i] == rows[1..][i - 1];
      if |rows[0]| <= w then |rows[0]| else w
  }

  /**
   * `zip(*rows)`: one column per position up to the shortest tuple, and no
   * column at all when there are no tuples.
   */
  function Zip(rows: seq<seq<real>>): seq<seq<real>>
  {
    var w := if rows == [] then 0 else MinWidth(rows);
    seq(w, k requires 0 <= k < w => seq(|rows|, i requires 0 <= i < |rows| => rows[i][k]))
  }

  /** A column of numbers as plot entries. */
  function Vals(col: seq<real>): seq<Coord>
  {
    seq(|col|, i requires 0 <= i < |col| => Val(col[i]))
  }

  /** `x, y = zip(*poly.exterior.coords)` for each part in turn, extending both lists. */
  function ExtendParts(acc: Path, parts: seq<Part>): Result<Path, FlattenError>
    decreases |parts|
  {
    if parts == [] then Success(acc)
    else
      var cols := Zip(CoordTuples(parts[0].exterior));
      if |cols| != 2 then Failure(ValueError)
      else ExtendParts(Path(acc.xs + Vals(cols[0]) + [Gap], acc.ys + Vals(cols[1]) + [Gap]), parts[1..])
  }

  /**
   * The flattener exactly as written: a polygon indexes columns 0 and 1 of
   * `list(zip(*coords))`, a multi-polygon unpacks each part's `zip` into two
   * names, anything else gives two empty lists.
   */
  function ExtractAsWritten(g: Geometry): Result<Path, FlattenError>
  {
    match g
    case Polygon(exterior, _) =>
      var cols := Zip(CoordTuples(exterior));
      if |cols| <= 1 then Failure(IndexError)
      else Success(Path(Vals(cols[0]), Vals(cols[1])))
    case MultiPolygon(parts) => ExtendParts(Path([], []), parts)
    case Other => Success(Path([], []))
  }

  /** Unzipping a ring's coordinates gives nothing for an empty ring and its two columns otherwise. */
  lemma ZipRing(ring: Ring)
    ensures var cols := Zip(CoordTuples(ring));
      && (ring == [] ==> cols == [])
      && (ring != [] ==> |cols| == 2 && Vals(cols[0]) == RingColumn(ring, X) && Vals(cols[1]) == RingColumn(ring, Y))
  {
    var rows := CoordTuples(ring);
    if ring != [] {
      var w := MinWidth(rows);
      assert forall i :: 0 <= i < |rows| ==> |rows[i]| == 2;
      assert w == 2;
      var cols := Zip(rows);
      assert Vals(cols[0]) == RingColumn(ring, X);
      assert Vals(cols[1]) == RingColumn(ring, Y);
    }
  }

  /** Some exterior ring of the parts has no coordinates. */
  predicate SomeEmptyRing(parts: seq<Part>)
  {
    exists i :: 0 <= i < |parts| && parts[i].exterior == []
  }

  /**
   * The multi-polygon loop as written fails exactly when some part's ring is
   * empty, and otherwise appends the flattened parts to what it started with.
   */
  lemma {:induction false} ExtendPartsAgrees(acc: Path, parts: seq<Part>)
    ensures ExtendParts(acc, parts).Failure? <==> SomeEmptyRing(parts)
    ensures ExtendParts(acc, parts).Failure? ==> ExtendParts(acc, parts).error == ValueError
    ensures ExtendParts(acc, parts).Success? ==>
      ExtendParts(acc, parts).value == Path(acc.xs + PartsColumn(parts, X), acc.ys + PartsColumn(parts, Y))
    decreases |parts|
  {
    if parts != [] {
      var p := parts[0];
      var rest := parts[1..];
      ZipRing(p.exterior);
      assert parts == [p] + rest;
      assert SomeEmptyRing(parts) <==> p.exterior == [] || SomeEmptyRing(rest) by {
        if SomeEmptyRing(rest) {
          var i :| 0 <= i < |rest| && rest[i].exterior == [];
          assert parts[i + 1] == rest[i];
        }
      }
      if p.exterior != [] {
        var cols := Zip(CoordTuples(p.exterior));
        var acc' := Path(acc.xs + Vals(cols[0]) + [Gap], acc.ys + Vals(cols[1]) + [Gap]);
        ExtendPartsAgrees(acc', rest);
        MultiPolygonConcat(p, rest, X);
        MultiPolygonConcat(p, rest, Y);
      }
    }
  }

  /** Some exterior ring of the geometry has no coordinates. */
  predicate HasEmptyRing(g: Geometry)
  {
    match g
    case Polygon(exterior, _) => exterior == []
    case MultiPolygon(parts) => SomeEmptyRing(parts)
    case Other => false
  }

  /**
   * The code as written raises exactly when some exterior ring is empty (an
   * IndexError for a polygon, a ValueError for a multi-polygon part), and
   * otherwise returns the total flattener's columns.
   */
  lemma AsWrittenAgrees(g: Geometry)
    ensures ExtractAsWritten(g).Failure? <==> HasEmptyRing(g)
    ensures g.Polygon? && HasEmptyRing(g) ==> ExtractAsWritten(g) == Failure(IndexError)
    ensures g.MultiPolygon? && HasEmptyRing(g) ==> ExtractAsWritten(g) == Failure(ValueError)
    ensures ExtractAsWritten(g).Success? ==> ExtractAsWritten(g).value == Flatten(g)
  {
    match g
    case Polygon(exterior, _) =>
      ZipRing(exterior);
    case MultiPolygon(parts) =>
      ExtendPartsAgrees(Path([], []), parts);
    case Other =>
  }

  /**
   * An empty polygon makes the code as written raise an IndexError. At the call
   * in streamlit_app.py:65 the exception ends the `try` block, so no map,
   * selected-rows table, pie or charts appear, and the handler adds its
   * error message and hint. A geometry of any unsupported kind is instead
   * flattened to nothing without complaint, and the total flattener gives
   * two empty columns.
   */
  lemma EmptyPolygonRaises()
    ensures ExtractAsWritten(Polygon([], [])) == Failure(IndexError)
    ensures ExtractAsWritten(Other) == Success(Path([], []))
    ensures Flatten(Polygon([], [])) == Path([], [])
  {
  }
}
