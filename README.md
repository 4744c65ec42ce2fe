# Drill-hole / cube intersection report, modelled in Dafny

The repository produces a report that says which 5x5x5 cubes of a block model
are "hit" by which drill holes. It reads two tables: drill-hole surveys
(`BHID`, collar coordinates, azimuth, dip, depth) and cube centres plus any
other columns. Each hole is tested against each cube by `interseca_cubo`.
Every hit becomes one report row: a copy of the cube's row plus the hole's id
(`Taladro`) and the end point of the hole's trajectory (`Punto_final_taladro`).

The model has three modules, one per piece of `INX.py`:

- `Geometry` (`geometry.dfy`) covers `distancia_3d`. It defines points, the
  squared distance, and `IsDistance(d, p, q)`: `d` is the value the Python
  returns, the non-negative square root of the squared distance. No square
  root is computed. Every comparison with the radius is done on squares, and
  `WithinRadiusBySquares` proves that this gives the same answer as
  comparing the distance itself.
- `Drilling` (`drilling.dfy`) covers `interseca_cubo` as the function
  `Intersects`. It computes the end point `collar + direction * depth`. The
  hit decision, however, compares the distance from the **collar** to the
  cube centre with the radius 2.5, boundary included (the code's comment
  calls it "centro a centro"). The end point plays no part in the decision.
  A miss returns `(False, None)`. The trigonometry (`np.sin`, `np.cos`, and
  the `pi` used by `np.radians`) is passed in as a `Trig` value.
  Properties that need exact trigonometry take `PythagoreanIdentity(t)` as a
  hypothesis.
- `Report` (`report.dfy`) covers the nested loop at INX.py lines 63-81 as the
  method `Sweep`, whose outer `while` loop runs the inner loop `SweepHole`
  once per hole. Both loops append to the same sequence accumulator, and the
  method is proved equal to the specification function `SweepRows`. A
  second, index-based description, `SweepHits`, lists the positions
  `(hole, cube)` that hit, and the lemmas relate the two. The report has
  exactly one row per hitting pair and none for any other pair. Rows come in
  hole-outer, cube-inner order, and each row is the cube's row with
  `Taladro` and `Punto_final_taladro` set. The report is empty exactly when no
  pair hits: that is the condition for the "no intersections" message.

The tables are Dafny sequences, and sequences are values, so the sweep
cannot change its inputs. The comment at INX.py line 38 speaks of the hole's
path crossing the cube, but line 39 measures from the collar; the model
follows the code.

## Model

| member | source | states |
|---|---|---|
| Geometry.SquaredDistance | INX.py:6-7 | the radicand of `distancia_3d` is never negative |
| Geometry.IsDistance | INX.py:7 | `d` is the value `np.sqrt` returns: non-negative, with square equal to the squared distance; `DistanceUnique` shows at most one such value exists |
| Geometry.SquaredDistanceZero | INX.py:6-7 | the squared distance is positive exactly when the two points differ |
| Geometry.SquaredDistanceSymmetric | INX.py:6-7 | the squared distance from p to q equals the one from q to p |
| Geometry.DistanceUnique | INX.py:7 | at most one non-negative root exists, so `distancia_3d` is a function of its two points |
| Geometry.DistanceSymmetric | INX.py:6-7 | `distancia_3d(p, q)` is also the distance from q to p |
| Geometry.DistanceZero | INX.py:6-7 | `distancia_3d(p, q)` is zero exactly when p and q are the same point |
| Geometry.WithinRadiusBySquares | INX.py:7 | for a non-negative radius, "distance <= radius" holds exactly when "squared distance <= radius squared" |
| Drilling.Radians | INX.py:23-24 | `np.radians`: zero degrees is zero radians, 180 degrees is `pi` |
| Drilling.Direction | INX.py:27-29 | a level hole points along its azimuth in the horizontal plane, and a level hole with azimuth zero points along the Y axis; `DirectionIsUnit` shows the direction has length 1 |
| Drilling.EndPoint | INX.py:32-36 | `punto_final`: a hole of depth zero or without direction ends at its collar; `EndPointAtDepth` shows it lies `depth` from the collar |
| Drilling.Intersects | INX.py:10-44 | an end point is returned exactly when the result says "hit" |
| Drilling.HitIffCollarWithinRadius | INX.py:39-42 | hit exactly when the collar-to-centre distance is at most `CubeRadius` (2.5, line 20) |
| Drilling.RadiusBoundary | INX.py:42-44 | a collar at distance exactly 2.5 is a hit; at 2.5 plus any positive amount it is a miss |
| Drilling.HitIgnoresTrajectory | INX.py:39-42 | whether it is a hit does not depend on azimuth, dip, depth or the trigonometry |
| Drilling.HitEndPoint | INX.py:32-43 | on a hit, the returned point is the collar moved `depth` along the hole's direction |
| Drilling.EndPointIgnoresCube | INX.py:32-43 | two cubes hit by the same hole get the same end point |
| Drilling.MissIsEmpty | INX.py:44 | a miss is exactly `(False, None)` |
| Drilling.EndPointOffset | INX.py:32-36 | the squared offset from collar to end point is depth squared times the squared length of the direction |
| Drilling.DirectionIsUnit | INX.py:23-29 | if sin^2 + cos^2 = 1, the direction built from azimuth and dip has length 1 |
| Drilling.EndPointAtDepth | INX.py:23-36 | with exact trigonometry and depth >= 0, the end point (the one a hit returns) is exactly `depth` from the collar |
| Drilling.CentredLevelHole | INX.py:10-44 | collar (0,0,0), azimuth 0, dip 0, depth 100, cube at (0,0,0): a hit ending at (0,100,0) |
| Drilling.DistantCube | INX.py:39-44 | the same hole against a cube at (10,10,10): `(False, None)` |
| Report.MatchRowColumns | INX.py:78-81 | the row `MatchRow` builds has the cube's keys plus `Taladro` and `Punto_final_taladro`, holding the hole's id and the end point; every other column keeps the cube's value |
| Report.PairRows | INX.py:75-81 | one pass of the inner loop body appends at most one row: one exactly when the hole hits the cube, built from that cube and the hole's end point |
| Report.HoleRows | INX.py:73-81 | the inner loop appends at most one row per cube; `HoleRowsCorrect` states which rows and in which order |
| Report.SweepRows | INX.py:66-81 | the rows after the outer loop, one hole's rows after another's; `SweepRowsCorrect`, `SweepCount` and `SweepEmptyIffNoHits` state what they are |
| Report.Sweep | INX.py:63-81 | the nested loops build exactly `SweepRows`; the result is empty exactly when no hole hits any cube |
| Report.SweepHole | INX.py:73-81 | the inner loop appends exactly `HoleRows` for the hole to the rows already built |
| Report.HoleRowsCorrect | INX.py:73-81 | for one hole: row k comes from the k-th cube it hits, every hit cube is listed, and they come in cube order |
| Report.SweepRowsCorrect | INX.py:66-81 | row k comes from the k-th hitting (hole, cube) pair; every hitting pair is listed; pairs come in hole-outer, cube-inner order |
| Report.SweepHitsExact | INX.py:66-81 | a pair is listed exactly when both positions are in range and the hole hits the cube |
| Report.SweepEmptyIffNoHits | INX.py:84-89 | the report is empty exactly when no pair hits |
| Report.SweepCount | INX.py:66-81 | the report has as many rows as there are distinct hitting pairs |
| Report.SameCollarSameCubes | INX.py:66-77 | two holes with the same collar hit the same cubes, whatever their angles and depths |
| Report.ReportRowsNearCollar | INX.py:66-81 | when every cube's row carries its own centre in `X`, `Y`, `Z`, every report row names a hole whose collar lies within 2.5 of that row's `X`, `Y`, `Z` |
| Report.TwoHolesThreeCubes | INX.py:63-81 | two holes and three cubes with two hitting pairs give exactly those two rows, hole by hole |

## Left out

- The Streamlit interface is not modelled: the title, the two file
  uploaders, and the `st.write` / `st.dataframe` output (lines 47-59 and
  84-89). Only the emptiness test at line 84 is kept, as
  `SweepEmptyIffNoHits`.
- The guard at line 62 is not modelled. It runs the sweep only once both
  files are uploaded; that is user-interface control flow.
- `pd.read_excel`, `iterrows` and `pd.DataFrame` are library code. The tables
  are sequences of `DrillHole` and `Cube` records. A cube's centre and its
  `to_dict()` row are both fields of `Cube`. The model does not require the
  row's `X`/`Y`/`Z` entries to agree with the centre; `ReportRowsNearCollar`
  takes that agreement (`Consistent`) as a hypothesis.
- Column types are not modelled. `BHID` is a string. A cell is a number, a
  string or a point. `Punto_final_taladro` holds a point, where the source
  holds a three-element list.
- Floating point is not modelled. Coordinates are exact reals, so rounding,
  overflow and NaN propagation are absent.
- `np.sqrt` is replaced by comparing squares (`IsDistance`,
  `WithinRadiusBySquares`).
- `np.sin`, `np.cos` and the value of `pi` in `np.radians` are not computed.
  They are parameters (`Trig`). Facts that need sin^2 + cos^2 = 1 state it as
  a hypothesis.
- Missing or mistyped columns would make pandas raise at run time. The model
  has no such errors, since its records always carry every field.
