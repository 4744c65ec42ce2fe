/** The matching sweep of INX.py: every drill hole (outer loop) is tested
    against every cube (inner loop), in table order, and every hit appends a
    copy of the cube's row extended with the hole's identifier and the end
    point of its trajectory. */
module Report {
  import opened Geometry
  import opened Drilling

  /** A value in a table cell. */
  datatype Cell = Num(number: real) | Text(text: string) | Triple(point: Point3)

  /** A row as the dictionary `cubo.to_dict()` produces: column name to value. */
  type Row = map<string, Cell>

  /** One row of the drill-hole table: `BHID`, `XCOLLAR`/`YCOLLAR`/`ZCOLLAR`,
      `AZIMUT`, `DIP`, `DEPTH`. */
  datatype DrillHole = DrillHole(bhid: string, collar: Point3, azimuth: real, dip: real, depth: real)

  /** One row of the cube table: its centre (`X`, `Y`, `Z`) and the whole row
      as a dictionary, passed through to the report. */
  datatype Cube = Cube(center: Point3, columns: Row)

  const HoleKey: string := "Taladro"
  const EndPointKey: string := "Punto_final_taladro"

  /** A pair of positions, hole first and cube second. */
  type Pair = (nat, nat)

  /** The predicate applied to one hole and one cube, as the inner loop calls it. */
  function Test(t: Trig, hole: DrillHole, cube: Cube): Verdict {
    Intersects(t, hole.collar, hole.azimuth, hole.dip, hole.depth, cube.center)
  }

  predicate Hits(t: Trig, hole: DrillHole, cube: Cube) {
    Test(t, hole, cube).hit
  }

  /** The point where the hole's trajectory ends; it does not depend on the cube. */
  function TrajectoryEnd(t: Trig, hole: DrillHole): Point3 {
    EndPoint(hole.collar, Direction(t, hole.azimuth, hole.dip), hole.depth)
  }

  /** The report row for a hit: the cube's row with `Taladro` and
      `Punto_final_taladro` set (see `MatchRowColumns`). */
  function MatchRow(hole: DrillHole, cube: Cube, endPoint: Point3): Row {
    cube.columns[HoleKey := Text(hole.bhid)][EndPointKey := Triple(endPoint)]
  }

  /** A report row holds every column of the cube's row and the two added
      ones; `Taladro` names the hole, `Punto_final_taladro` holds the end
      point, and every other column keeps the cube's value (an existing
      column of either name is overwritten). */
  lemma MatchRowColumns(hole: DrillHole, cube: Cube, endPoint: Point3)
    ensures MatchRow(hole, cube, endPoint).Keys == cube.columns.Keys + {HoleKey, EndPointKey}
    ensures MatchRow(hole, cube, endPoint)[HoleKey] == Text(hole.bhid)
    ensures MatchRow(hole, cube, endPoint)[EndPointKey] == Triple(endPoint)
    ensures forall k :: k in cube.columns && k != HoleKey && k != EndPointKey ==>
              MatchRow(hole, cube, endPoint)[k] == cube.columns[k]
  {
  }

  /** What one pass of the inner loop body appends: one row when the hole
      hits the cube, built with the end point of the hole, and none otherwise. */
  function PairRows(t: Trig, hole: DrillHole, cube: Cube): (rows: seq<Row>)
    ensures |rows| <= 1
    ensures rows != [] <==> Hits(t, hole, cube)
    ensures rows != [] ==> rows[0] == MatchRow(hole, cube, TrajectoryEnd(t, hole))
  {
    var v := Test(t, hole, cube);
    if v.hit then [MatchRow(hole, cube, v.endPoint.value)] else []
  }

  /** The rows the inner loop appends for one hole over a prefix of the cubes:
      at most one per cube. */
  function HoleRows(t: Trig, hole: DrillHole, cubes: seq<Cube>): (rows: seq<Row>)
    ensures |rows| <= |cubes|
    decreases |cubes|
  {
    if cubes == [] then []
    else HoleRows(t, hole, cubes[..|cubes| - 1]) + PairRows(t, hole, cubes[|cubes| - 1])
  }

  /** `cubos_intersecados` after the outer loop has run over `holes`. */
  function SweepRows(t: Trig, holes: seq<DrillHole>, cubes: seq<Cube>): seq<Row>
    decreases |holes|
  {
    if holes == [] then []
    else SweepRows(t, holes[..|holes| - 1], cubes) + HoleRows(t, holes[|holes| - 1], cubes)
  }

  /** No hole of the table hits any cube of the table. */
  predicate NoHits(t: Trig, holes: seq<DrillHole>, cubes: seq<Cube>) {
    forall i, j :: 0 <= i < |holes| && 0 <= j < |cubes| ==> !Hits(t, holes[i], cubes[j])
  }

  /** The sweep of INX.py lines 63-81, on sequences for the two tables: the
      outer loop over the holes. */
  method Sweep(t: Trig, holes: seq<DrillHole>, cubes: seq<Cube>) returns (rows: seq<Row>)
    ensures rows == SweepRows(t, holes, cubes)
    ensures rows == [] <==> NoHits(t, holes, cubes)
  {
    rows := [];
    var i := 0;
    while i < |holes|
      invariant 0 <= i <= |holes|
      invariant rows == SweepRows(t, holes[..i], cubes)
    {
      rows := SweepHole(t, holes[i], cubes, rows);
      SweepRowsStep(t, holes, cubes, i);
      i := i + 1;
    }
    assert holes[..i] == holes;
    SweepEmptyIffNoHits(t, holes, cubes);
  }

  /** The inner loop of INX.py lines 73-81 for one hole: every cube the hole
      hits appends a row to `rows`, in cube order. */
  method SweepHole(t: Trig, hole: DrillHole, cubes: seq<Cube>, rows0: seq<Row>) returns (rows: seq<Row>)
    ensures rows == rows0 + HoleRows(t, hole, cubes)
  {
    rows := rows0;
    var j := 0;
    while j < |cubes|
      invariant 0 <= j <= |cubes|
      invariant rows == rows0 + HoleRows(t, hole, cubes[..j])
    {
      var cube := cubes[j];
      var v := Intersects(t, hole.collar, hole.azimuth, hole.dip, hole.depth, cube.center);
      if v.hit {
        rows := rows + [MatchRow(hole, cube, v.endPoint.value)];
      }
      HoleRowsStep(t, hole, cubes, j, v);
      j := j + 1;
    }
    assert cubes[..j] == cubes;
  }

  /** One more cube adds what the inner loop body appends for the verdict
      `v` on it. */
  lemma HoleRowsStep(t: Trig, hole: DrillHole, cubes: seq<Cube>, j: nat, v: Verdict)
    requires j < |cubes|
    requires v == Intersects(t, hole.collar, hole.azimuth, hole.dip, hole.depth, cubes[j].center)
    ensures v.hit ==> (v.endPoint.Some? &&
              HoleRows(t, hole, cubes[..j + 1])
                == HoleRows(t, hole, cubes[..j]) + [MatchRow(hole, cubes[j], v.endPoint.value)])
    ensures !v.hit ==> HoleRows(t, hole, cubes[..j + 1]) == HoleRows(t, hole, cubes[..j])
  {
    assert cubes[..j + 1][..j] == cubes[..j];
  }

  /** One more hole adds what the inner loop appends for it. */
  lemma SweepRowsStep(t: Trig, holes: seq<DrillHole>, cubes: seq<Cube>, i: nat)
    requires i < |holes|
    ensures SweepRows(t, holes[..i + 1], cubes) == SweepRows(t, holes[..i], cubes) + HoleRows(t, holes[i], cubes)
  {
    assert holes[..i + 1][..i] == holes[..i];
  }

  // ---------------------------------------------------------------------------
  // A reference for the sweep: the positions of the matching pairs.

  /** Hole-outer, cube-inner order on pairs of positions. */
  predicate Before(p: Pair, q: Pair) {
    p.0 < q.0 || (p.0 == q.0 && p.1 < q.1)
  }

  /** The positions `(i, j)`, over a prefix of the cubes, at which hole `i`
      hits cube `j`, in the order the inner loop meets them. */
  function HoleHits(t: Trig, i: nat, hole: DrillHole, cubes: seq<Cube>): seq<Pair>
    decreases |cubes|
  {
    if cubes == [] then []
    else
      var j := |cubes| - 1;
      HoleHits(t, i, hole, cubes[..j]) + (if Hits(t, hole, cubes[j]) then [(i, j)] else [])
  }

  /** The positions of all matching pairs, in the order the sweep meets them. */
  function SweepHits(t: Trig, holes: seq<DrillHole>, cubes: seq<Cube>): seq<Pair>
    decreases |holes|
  {
    if holes == [] then []
    else
      var i := |holes| - 1;
      SweepHits(t, holes[..i], cubes) + HoleHits(t, i, holes[i], cubes)
  }

  /** The set of matching pairs, without any order. */
  function HitPairs(t: Trig, holes: seq<DrillHole>, cubes: seq<Cube>): set<Pair> {
    set i: nat, j: nat | i < |holes| && j < |cubes| && Hits(t, holes[i], cubes[j]) :: (i, j)
  }

  /** What the inner loop produces for hole `i`: one row per cube the hole
      hits, in cube order, each row built from that cube and the hole's end
      point. */
  lemma HoleRowsCorrect(t: Trig, i: nat, hole: DrillHole, cubes: seq<Cube>)
    ensures |HoleRows(t, hole, cubes)| == |HoleHits(t, i, hole, cubes)|
    ensures forall k :: 0 <= k < |HoleHits(t, i, hole, cubes)| ==>
              var p := HoleHits(t, i, hole, cubes)[k];
              p.0 == i && p.1 < |cubes| && Hits(t, hole, cubes[p.1]) &&
              HoleRows(t, hole, cubes)[k] == MatchRow(hole, cubes[p.1], TrajectoryEnd(t, hole))
    ensures forall j :: 0 <= j < |cubes| && Hits(t, hole, cubes[j]) ==>
              (i, j) in HoleHits(t, i, hole, cubes)
    ensures forall a, b :: 0 <= a < b < |HoleHits(t, i, hole, cubes)| ==>
              HoleHits(t, i, hole, cubes)[a].1 < HoleHits(t, i, hole, cubes)[b].1
  {
    HoleRowsAligned(t, i, hole, cubes);
    HoleHitsComplete(t, i, hole, cubes);
    HoleHitsOrdered(t, i, hole, cubes);
  }

  /** Every pair listed for hole `i` names hole `i` and a cube of the table. */
  lemma {:induction false} HoleHitsAt(t: Trig, i: nat, hole: DrillHole, cubes: seq<Cube>)
    ensures forall k :: 0 <= k < |HoleHits(t, i, hole, cubes)| ==>
              HoleHits(t, i, hole, cubes)[k].0 == i && HoleHits(t, i, hole, cubes)[k].1 < |cubes|
  {
    if cubes != [] {
      HoleHitsAt(t, i, hole, cubes[..|cubes| - 1]);
    }
  }

  /** Row `k` of one hole's rows is built from the `k`-th cube it hits. */
  lemma {:induction false} HoleRowsAligned(t: Trig, i: nat, hole: DrillHole, cubes: seq<Cube>)
    ensures |HoleRows(t, hole, cubes)| == |HoleHits(t, i, hole, cubes)|
    ensures forall k :: 0 <= k < |HoleHits(t, i, hole, cubes)| ==>
              var p := HoleHits(t, i, hole, cubes)[k];
              p.0 == i && p.1 < |cubes| && Hits(t, hole, cubes[p.1]) &&
              HoleRows(t, hole, cubes)[k] == MatchRow(hole, cubes[p.1], TrajectoryEnd(t, hole))
  {
    if cubes != [] {
      var j := |cubes| - 1;
      var prefix := cubes[..j];
      HoleRowsAligned(t, i, hole, prefix);
      var hitsA, rowsA := HoleHits(t, i, hole, prefix), HoleRows(t, hole, prefix);
      var hitsB: seq<Pair> := if Hits(t, hole, cubes[j]) then [(i, j)] else [];
      var rowsB := PairRows(t, hole, cubes[j]);
      forall k | 0 <= k < |hitsA + hitsB|
        ensures var p: Pair := (hitsA + hitsB)[k];
                p.0 == i && p.1 < |cubes| && Hits(t, hole, cubes[p.1]) &&
                (rowsA + rowsB)[k] == MatchRow(hole, cubes[p.1], TrajectoryEnd(t, hole))
      {
        if k < |hitsA| {
          assert (hitsA + hitsB)[k] == hitsA[k] && (rowsA + rowsB)[k] == rowsA[k];
          assert prefix[hitsA[k].1] == cubes[hitsA[k].1];
        } else {
          assert (hitsA + hitsB)[k] == hitsB[k - |hitsA|];
          assert (rowsA + rowsB)[k] == rowsB[k - |hitsA|];
        }
      }
    }
  }

  /** Every cube the hole hits is listed for it. */
  lemma {:induction false} HoleHitsComplete(t: Trig, i: nat, hole: DrillHole, cubes: seq<Cube>)
    ensures forall j :: 0 <= j < |cubes| && Hits(t, hole, cubes[j]) ==>
              (i, j) in HoleHits(t, i, hole, cubes)
  {
    if cubes != [] {
      var n := |cubes| - 1;
      var prefix := cubes[..n];
      HoleHitsComplete(t, i, hole, prefix);
      forall j | 0 <= j < |cubes| && Hits(t, hole, cubes[j])
        ensures (i, j) in HoleHits(t, i, hole, cubes)
      {
        if j < n {
          assert prefix[j] == cubes[j];
        }
      }
    }
  }

  /** The cubes listed for one hole come in strictly increasing order. */
  lemma {:induction false} HoleHitsOrdered(t: Trig, i: nat, hole: DrillHole, cubes: seq<Cube>)
    ensures forall a, b :: 0 <= a < b < |HoleHits(t, i, hole, cubes)| ==>
              HoleHits(t, i, hole, cubes)[a].1 < HoleHits(t, i, hole, cubes)[b].1
  {
    if cubes != [] {
      var n := |cubes| - 1;
      var prefix := cubes[..n];
      HoleHitsOrdered(t, i, hole, prefix);
      HoleHitsAt(t, i, hole, prefix);
    }
  }

  /** The whole sweep, position by position: row `k` comes from the `k`-th
      matching pair, every matching pair is listed, and the pairs are in
      hole-outer, cube-inner order. */
  lemma SweepRowsCorrect(t: Trig, holes: seq<DrillHole>, cubes: seq<Cube>)
    ensures |SweepRows(t, holes, cubes)| == |SweepHits(t, holes, cubes)|
    ensures forall k :: 0 <= k < |SweepHits(t, holes, cubes)| ==>
              var p := SweepHits(t, holes, cubes)[k];
              p.0 < |holes| && p.1 < |cubes| && Hits(t, holes[p.0], cubes[p.1]) &&
              SweepRows(t, holes, cubes)[k]
                == MatchRow(holes[p.0], cubes[p.1], TrajectoryEnd(t, holes[p.0]))
    ensures forall i, j :: 0 <= i < |holes| && 0 <= j < |cubes| && Hits(t, holes[i], cubes[j]) ==>
              (i, j) in SweepHits(t, holes, cubes)
    ensures forall a, b :: 0 <= a < b < |SweepHits(t, holes, cubes)| ==>
              Before(SweepHits(t, holes, cubes)[a], SweepHits(t, holes, cubes)[b])
  {
    SweepRowsAligned(t, holes, cubes);
    SweepHitsComplete(t, holes, cubes);
    SweepHitsOrdered(t, holes, cubes);
  }

  /** Row `k` of the sweep is built from the `k`-th matching pair. */
  lemma {:induction false} SweepRowsAligned(t: Trig, holes: seq<DrillHole>, cubes: seq<Cube>)
    ensures |SweepRows(t, holes, cubes)| == |SweepHits(t, holes, cubes)|
    ensures forall k :: 0 <= k < |SweepHits(t, holes, cubes)| ==>
              var p := SweepHits(t, holes, cubes)[k];
              p.0 < |holes| && p.1 < |cubes| && Hits(t, holes[p.0], cubes[p.1]) &&
              SweepRows(t, holes, cubes)[k]
                == MatchRow(holes[p.0], cubes[p.1], TrajectoryEnd(t, holes[p.0]))
  {
    if holes != [] {
      var i := |holes| - 1;
      var prefix := holes[..i];
      SweepRowsAligned(t, prefix, cubes);
      HoleRowsAligned(t, i, holes[i], cubes);
      var hitsA, hitsB := SweepHits(t, prefix, cubes), HoleHits(t, i, holes[i], cubes);
      var rowsA, rowsB := SweepRows(t, prefix, cubes), HoleRows(t, holes[i], cubes);
      forall k | 0 <= k < |hitsA + hitsB|
        ensures var p: Pair := (hitsA + hitsB)[k];
                p.0 < |holes| && p.1 < |cubes| && Hits(t, holes[p.0], cubes[p.1]) &&
                (rowsA + rowsB)[k] == MatchRow(holes[p.0], cubes[p.1], TrajectoryEnd(t, holes[p.0]))
      {
        if k < |hitsA| {
          assert (hitsA + hitsB)[k] == hitsA[k] && (rowsA + rowsB)[k] == rowsA[k];
          assert prefix[hitsA[k].0] == holes[hitsA[k].0];
        } else {
          assert (hitsA + hitsB)[k] == hitsB[k - |hitsA|];
          assert (rowsA + rowsB)[k] == rowsB[k - |hitsA|];
        }
      }
    }
  }

  /** Every matching pair of positions is listed by the sweep. */
  lemma {:induction false} SweepHitsComplete(t: Trig, holes: seq<DrillHole>, cubes: seq<Cube>)
    ensures forall i, j :: 0 <= i < |holes| && 0 <= j < |cubes| && Hits(t, holes[i], cubes[j]) ==>
              (i, j) in SweepHits(t, holes, cubes)
  {
    if holes != [] {
      var n := |holes| - 1;
      var prefix := holes[..n];
      SweepHitsComplete(t, prefix, cubes);
      HoleHitsComplete(t, n, holes[n], cubes);
      var hitsA, hitsB := SweepHits(t, prefix, cubes), HoleHits(t, n, holes[n], cubes);
      assert SweepHits(t, holes, cubes) == hitsA + hitsB;
      forall i, j | 0 <= i < |holes| && 0 <= j < |cubes| && Hits(t, holes[i], cubes[j])
        ensures (i, j) in hitsA + hitsB
      {
        if i < n {
          assert prefix[i] == holes[i];
          assert (i, j) in hitsA;
        } else {
          assert (i, j) in hitsB;
        }
      }
    }
  }

  /** The sweep lists its pairs in hole-outer, cube-inner order. */
  lemma {:induction false} SweepHitsOrdered(t: Trig, holes: seq<DrillHole>, cubes: seq<Cube>)
    ensures forall a, b :: 0 <= a < b < |SweepHits(t, holes, cubes)| ==>
              Before(SweepHits(t, holes, cubes)[a], SweepHits(t, holes, cubes)[b])
  {
    if holes != [] {
      var n := |holes| - 1;
      var prefix := holes[..n];
      SweepHitsOrdered(t, prefix, cubes);
      SweepHitsBelow(t, prefix, cubes);
      HoleHitsAt(t, n, holes[n], cubes);
      HoleHitsOrdered(t, n, holes[n], cubes);
      var hitsA, hitsB := SweepHits(t, prefix, cubes), HoleHits(t, n, holes[n], cubes);
      forall a, b | 0 <= a < b < |hitsA + hitsB|
        ensures Before((hitsA + hitsB)[a], (hitsA + hitsB)[b])
      {
        if b < |hitsA| {
          assert (hitsA + hitsB)[a] == hitsA[a] && (hitsA + hitsB)[b] == hitsA[b];
        } else if a < |hitsA| {
          assert (hitsA + hitsB)[a] == hitsA[a] && (hitsA + hitsB)[b] == hitsB[b - |hitsA|];
        } else {
          assert (hitsA + hitsB)[a] == hitsB[a - |hitsA|] && (hitsA + hitsB)[b] == hitsB[b - |hitsA|];
        }
      }
    }
  }

  /** Every pair the sweep lists names a hole inside the table. */
  lemma {:induction false} SweepHitsBelow(t: Trig, holes: seq<DrillHole>, cubes: seq<Cube>)
    ensures forall k :: 0 <= k < |SweepHits(t, holes, cubes)| ==> SweepHits(t, holes, cubes)[k].0 < |holes|
  {
    if holes != [] {
      var n := |holes| - 1;
      SweepHitsBelow(t, holes[..n], cubes);
      HoleHitsAt(t, n, holes[n], cubes);
    }
  }

  /** The cube's row carries the cube's own centre in its `X`, `Y` and `Z`
      columns, which is where the program reads the centre from. */
  predicate Consistent(cube: Cube) {
    "X" in cube.columns && cube.columns["X"] == Num(cube.center.x) &&
    "Y" in cube.columns && cube.columns["Y"] == Num(cube.center.y) &&
    "Z" in cube.columns && cube.columns["Z"] == Num(cube.center.z)
  }

  /** The row names `hole` and its `X`, `Y`, `Z` lie within `CubeRadius` of
      the hole's collar. */
  predicate NearCollar(row: Row, hole: DrillHole) {
    HoleKey in row && row[HoleKey] == Text(hole.bhid) &&
    "X" in row && row["X"].Num? && "Y" in row && row["Y"].Num? && "Z" in row && row["Z"].Num? &&
    SquaredDistance(hole.collar, Point3(row["X"].number, row["Y"].number, row["Z"].number))
      <= CubeRadius * CubeRadius
  }

  /** When every cube's row carries its centre, every report row names a hole
      whose collar lies within `CubeRadius` of the row's `X`, `Y`, `Z`. */
  lemma ReportRowsNearCollar(t: Trig, holes: seq<DrillHole>, cubes: seq<Cube>)
    requires forall j :: 0 <= j < |cubes| ==> Consistent(cubes[j])
    ensures forall k :: 0 <= k < |SweepRows(t, holes, cubes)| ==>
              exists i :: 0 <= i < |holes| && NearCollar(SweepRows(t, holes, cubes)[k], holes[i])
  {
    SweepRowsAligned(t, holes, cubes);
    var rows, hits := SweepRows(t, holes, cubes), SweepHits(t, holes, cubes);
    forall k | 0 <= k < |rows|
      ensures exists i :: 0 <= i < |holes| && NearCollar(rows[k], holes[i])
    {
      var p := hits[k];
      var hole, cube := holes[p.0], cubes[p.1];
      MatchRowColumns(hole, cube, TrajectoryEnd(t, hole));
      assert rows[k] == MatchRow(hole, cube, TrajectoryEnd(t, hole));
      assert rows[k]["X"] == Num(cube.center.x) && rows[k]["Y"] == Num(cube.center.y)
          && rows[k]["Z"] == Num(cube.center.z);
      assert NearCollar(rows[k], hole);
    }
  }

  /** A pair appears among the sweep's pairs exactly when it is a pair of
      positions at which the hole hits the cube. */
  lemma SweepHitsExact(t: Trig, holes: seq<DrillHole>, cubes: seq<Cube>, i: nat, j: nat)
    ensures (i, j) in SweepHits(t, holes, cubes) <==>
              i < |holes| && j < |cubes| && Hits(t, holes[i], cubes[j])
  {
    SweepRowsCorrect(t, holes, cubes);
  }

  /** The report is empty exactly when no hole hits any cube: the condition of
      the "no intersections" message. */
  lemma SweepEmptyIffNoHits(t: Trig, holes: seq<DrillHole>, cubes: seq<Cube>)
    ensures SweepRows(t, holes, cubes) == [] <==> NoHits(t, holes, cubes)
  {
    var rows, hits := SweepRows(t, holes, cubes), SweepHits(t, holes, cubes);
    SweepRowsAligned(t, holes, cubes);
    if rows == [] {
      SweepHitsComplete(t, holes, cubes);
      forall i, j | 0 <= i < |holes| && 0 <= j < |cubes|
        ensures !Hits(t, holes[i], cubes[j])
      {
        assert (i, j) !in hits by {
          assert |hits| == 0;
        }
      }
    } else {
      var p := hits[0];
      assert p.0 < |holes| && p.1 < |cubes| && Hits(t, holes[p.0], cubes[p.1]);
    }
  }

  /** The report has as many rows as there are matching pairs: no pair is
      reported twice and none is left out. */
  lemma SweepCount(t: Trig, holes: seq<DrillHole>, cubes: seq<Cube>)
    ensures |SweepRows(t, holes, cubes)| == |HitPairs(t, holes, cubes)|
  {
    var hits := SweepHits(t, holes, cubes);
    SweepRowsCorrect(t, holes, cubes);
    assert (set p | p in hits) == HitPairs(t, holes, cubes) by {
      forall p | p in hits ensures p in HitPairs(t, holes, cubes) {
        var k :| 0 <= k < |hits| && hits[k] == p;
      }
    }
    DistinctCardinality(hits);
  }

  /** A sequence of pairs in strictly increasing order has as many distinct
      elements as it has positions. */
  lemma {:induction false} DistinctCardinality(s: seq<Pair>)
    requires forall a, b :: 0 <= a < b < |s| ==> Before(s[a], s[b])
    ensures |set p | p in s| == |s|
  {
    if s != [] {
      var n := |s| - 1;
      var prefix := s[..n];
      DistinctCardinality(prefix);
      assert s[n] !in prefix by {
        forall k | 0 <= k < n ensures prefix[k] != s[n] {
          assert Before(s[k], s[n]);
        }
      }
      assert (set p | p in s) == (set p | p in prefix) + {s[n]} by {
        assert s == prefix + [s[n]];
      }
    }
  }

  /** Two holes with the same collar hit the same cubes, whatever their
      angles and depths. */
  lemma {:induction false} SameCollarSameCubes(t: Trig, i: nat, hole1: DrillHole, hole2: DrillHole,
                                               cubes: seq<Cube>)
    requires hole1.collar == hole2.collar
    ensures HoleHits(t, i, hole1, cubes) == HoleHits(t, i, hole2, cubes)
  {
    if cubes != [] {
      SameCollarSameCubes(t, i, hole1, hole2, cubes[..|cubes| - 1]);
      HitIgnoresTrajectory(t, t, hole1.collar, cubes[|cubes| - 1].center,
                           hole1.azimuth, hole1.dip, hole1.depth,
                           hole2.azimuth, hole2.dip, hole2.depth);
    }
  }

  /** Two holes and three cubes, of which exactly two pairs are within the
      radius: the report holds those two rows, hole by hole. */
  lemma TwoHolesThreeCubes(t: Trig, near: Row, far: Row, other: Row)
    ensures var h1 := DrillHole("DH-1", Origin, 0.0, 0.0, 100.0);
            var h2 := DrillHole("DH-2", Point3(100.0, 0.0, 0.0), 90.0, 45.0, 50.0);
            var c1 := Cube(Point3(1.0, 1.0, 1.0), near);
            var c2 := Cube(Point3(100.0, 2.0, 0.0), far);
            var c3 := Cube(Point3(50.0, 50.0, 50.0), other);
            SweepRows(t, [h1, h2], [c1, c2, c3])
              == [MatchRow(h1, c1, TrajectoryEnd(t, h1)), MatchRow(h2, c2, TrajectoryEnd(t, h2))]
  {
    var h1 := DrillHole("DH-1", Origin, 0.0, 0.0, 100.0);
    var h2 := DrillHole("DH-2", Point3(100.0, 0.0, 0.0), 90.0, 45.0, 50.0);
    var c1 := Cube(Point3(1.0, 1.0, 1.0), near);
    var c2 := Cube(Point3(100.0, 2.0, 0.0), far);
    var c3 := Cube(Point3(50.0, 50.0, 50.0), other);
    var cubes := [c1, c2, c3];
    assert cubes[..2] == [c1, c2] && cubes[..2][..1] == [c1] && [c1][..0] == [];
    assert [h1, h2][..1] == [h1] && [h1][..0] == [];
    assert Hits(t, h1, c1) && !Hits(t, h1, c2) && !Hits(t, h1, c3);
    assert !Hits(t, h2, c1) && Hits(t, h2, c2) && !Hits(t, h2, c3);
    assert PairRows(t, h1, c1) == [MatchRow(h1, c1, TrajectoryEnd(t, h1))];
    assert PairRows(t, h2, c2) == [MatchRow(h2, c2, TrajectoryEnd(t, h2))];
    assert PairRows(t, h1, c2) == PairRows(t, h1, c3) == [];
    assert PairRows(t, h2, c1) == PairRows(t, h2, c3) == [];
    assert HoleRows(t, h1, [c1]) == PairRows(t, h1, c1);
    assert HoleRows(t, h2, [c1]) == [];
    assert HoleRows(t, h1, [c1, c2]) == HoleRows(t, h1, [c1]);
    assert HoleRows(t, h2, [c1, c2]) == PairRows(t, h2, c2);
    assert HoleRows(t, h1, cubes) == HoleRows(t, h1, [c1, c2]);
    assert HoleRows(t, h2, cubes) == HoleRows(t, h2, [c1, c2]);
    assert SweepRows(t, [h1], cubes) == HoleRows(t, h1, cubes);
    assert SweepRows(t, [h1, h2], cubes) == SweepRows(t, [h1], cubes) + HoleRows(t, h2, cubes);
  }
}
