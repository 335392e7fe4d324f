/**
 * `CameraController` (3dviz/src/DataVisualization.js): whenever the points change
 * and there is at least one, the camera is put above the centre of their X/Y
 * extent, two units up, looking straight down at the plane z = 0.
 */
module Camera {
  import opened Wrappers
  import opened Ingest
  import opened Normalisation

  /** Where the camera is placed and the point it is turned towards. */
  datatype CameraPose = CameraPose(position: Vec3, lookAt: Vec3)

  /** `dataPoints.map(p => p.position.x)` and `.y`. */
  function PositionXs(points: seq<Point>): seq<real> { seq(|points|, k requires 0 <= k < |points| => points[k].position.x) }
  function PositionYs(points: seq<Point>): seq<real> { seq(|points|, k requires 0 <= k < |points| => points[k].position.y) }

  /**
   * The effect's camera update: `None` for an empty point list (the camera is left
   * alone); otherwise a pose at z = 2 above a centre that lies halfway between the
   * least and the greatest X and Y, looking at the same centre at z = 0.
   */
  function CameraTarget(points: seq<Point>): (pose: Option<CameraPose>)
    ensures pose.None? <==> points == []
    ensures pose.Some? ==>
      var c := pose.value;
      var lo, hi := Min(PositionXs(points)), Max(PositionXs(points));
      var loY, hiY := Min(PositionYs(points)), Max(PositionYs(points));
      c.position.z == 2.0 && c.lookAt.z == 0.0 &&
      c.lookAt.x == c.position.x && c.lookAt.y == c.position.y &&
      lo <= c.position.x <= hi && c.position.x - lo == hi - c.position.x &&
      loY <= c.position.y <= hiY && c.position.y - loY == hiY - c.position.y
  {
    if |points| > 0 then
      var xs, ys := PositionXs(points), PositionYs(points);
      var centerX := (Min(xs) + Max(xs)) / 2.0;
      var centerY := (Min(ys) + Max(ys)) / 2.0;
      Some(CameraPose(Vec3(centerX, centerY, 2.0), Vec3(centerX, centerY, 0.0)))
    else None
  }

  /**
   * After normalisation the X and Y extents are exactly [0, 1], so the camera always
   * ends up at (0.5, 0.5, 2) looking at (0.5, 0.5, 0).
   */
  lemma NormalisedCameraCentre(recs: seq<RawRecord>)
    requires Spread(recs) && recs != []
    ensures CameraTarget(Normalise(recs)) == Some(CameraPose(Vec3(0.5, 0.5, 2.0), Vec3(0.5, 0.5, 0.0)))
  {
    NormalisedXExtent(recs);
    NormalisedYExtent(recs);
    CentreOfUnitExtent(Normalise(recs));
  }

  /** The normalised X values run exactly from 0 to 1. */
  lemma NormalisedXExtent(recs: seq<RawRecord>)
    requires Spread(recs) && recs != []
    ensures Min(PositionXs(Normalise(recs))) == 0.0 && Max(PositionXs(Normalise(recs))) == 1.0
  {
    var i := MinAt(Xs(recs));
    var j := MaxAt(Xs(recs));
    NormaliseExtremes(recs, i);
    NormaliseExtremes(recs, j);
    UnitExtentX(Normalise(recs), i, j);
  }

  /** The normalised Y values run exactly from 0 to 1. */
  lemma NormalisedYExtent(recs: seq<RawRecord>)
    requires Spread(recs) && recs != []
    ensures Min(PositionYs(Normalise(recs))) == 0.0 && Max(PositionYs(Normalise(recs))) == 1.0
  {
    var i := MinAt(Ys(recs));
    var j := MaxAt(Ys(recs));
    NormaliseExtremes(recs, i);
    NormaliseExtremes(recs, j);
    UnitExtentY(Normalise(recs), i, j);
  }

  lemma CentreOfUnitExtent(points: seq<Point>)
    requires |points| > 0
    requires Min(PositionXs(points)) == 0.0 && Max(PositionXs(points)) == 1.0
    requires Min(PositionYs(points)) == 0.0 && Max(PositionYs(points)) == 1.0
    ensures CameraTarget(points) == Some(CameraPose(Vec3(0.5, 0.5, 2.0), Vec3(0.5, 0.5, 0.0)))
  {
  }

  /** Points in the unit cube, one with X = 0 and one with X = 1, have exactly that X extent. */
  lemma UnitExtentX(points: seq<Point>, i: nat, j: nat)
    requires i < |points| && j < |points|
    requires points[i].position.x == 0.0 && points[j].position.x == 1.0
    requires forall k :: 0 <= k < |points| ==> InUnitCube(points[k].position)
    ensures Min(PositionXs(points)) == 0.0 && Max(PositionXs(points)) == 1.0
  {
    var xs := PositionXs(points);
    assert xs[i] == 0.0 && xs[j] == 1.0;
    var a := MinAt(xs);
    var b := MaxAt(xs);
    assert InUnitCube(points[a].position) && InUnitCube(points[b].position);
  }

  /** The same for Y. */
  lemma UnitExtentY(points: seq<Point>, i: nat, j: nat)
    requires i < |points| && j < |points|
    requires points[i].position.y == 0.0 && points[j].position.y == 1.0
    requires forall k :: 0 <= k < |points| ==> InUnitCube(points[k].position)
    ensures Min(PositionYs(points)) == 0.0 && Max(PositionYs(points)) == 1.0
  {
    var ys := PositionYs(points);
    assert ys[i] == 0.0 && ys[j] == 1.0;
    var a := MinAt(ys);
    var b := MaxAt(ys);
    assert InUnitCube(points[a].position) && InUnitCube(points[b].position);
  }

  /** A load that yields points puts the camera at the centre of the unit square. */
  lemma CameraAfterLoad(text: string, p: Parsers)
    requires LoadSpread(text, p) && Load(text, p).Some? && Load(text, p).value != []
    ensures CameraTarget(Load(text, p).value) == Some(CameraPose(Vec3(0.5, 0.5, 2.0), Vec3(0.5, 0.5, 0.0)))
  {
    NormalisedCameraCentre(ParseText(text, p).value);
  }

  /** Input whose lines after the header are all empty loads no point, and the camera is not moved. */
  lemma HeaderOnlyLoad(text: string, p: Parsers)
    requires forall k :: 1 <= k < |JsStrings.Split(text, '\n')| ==> JsStrings.Split(text, '\n')[k] == ""
    ensures LoadSpread(text, p) && Load(text, p) == Some([]) && CameraTarget(Load(text, p).value).None?
  {
    var lines := JsStrings.Split(text, '\n');
    var rows := lines[1..];
    assert forall k :: 0 <= k < |rows| ==> rows[k] == lines[k + 1];
    BlankRowsParse(rows, RowParser(HeaderColumns(lines[0]), p));
    assert ParseText(text, p) == Some([]);
    assert LoadSpread(text, p);
    assert Normalise([]) == [];
    assert Load(text, p) == Some([]);
  }
}
