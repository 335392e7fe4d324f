/**
 * The second half of `reader.onload` (3dviz/src/DataVisualization.js): the raw
 * values are gathered per axis, their minimum and maximum taken, and every record
 * rescaled into the unit cube while keeping its original values for display.
 */
module Normalisation {
  import opened Wrappers
  import opened JsStrings
  import opened Ingest

  datatype Vec3 = Vec3(x: real, y: real, z: real)

  /**
   * A normalised point, `{ position, latitude, longitude, timestamp }`. The record's
   * colour is not copied into it.
   */
  datatype Point = Point(position: Vec3, latitude: real, longitude: real, timestamp: real)

  /** `Math.min(...s)` on a non-empty list: the least element. */
  function Min(s: seq<real>): (m: real)
    requires |s| > 0
    ensures m in s && forall k :: 0 <= k < |s| ==> m <= s[k]
  {
    if |s| == 1 then s[0]
    else
      var m := Min(s[..|s| - 1]);
      assert forall k :: 0 <= k < |s| - 1 ==> s[..|s| - 1][k] == s[k];
      if s[|s| - 1] < m then s[|s| - 1] else m
  }

  /** `Math.max(...s)` on a non-empty list: the greatest element. */
  function Max(s: seq<real>): (m: real)
    requires |s| > 0
    ensures m in s && forall k :: 0 <= k < |s| ==> s[k] <= m
  {
    if |s| == 1 then s[0]
    else
      var m := Max(s[..|s| - 1]);
      assert forall k :: 0 <= k < |s| - 1 ==> s[..|s| - 1][k] == s[k];
      if s[|s| - 1] > m then s[|s| - 1] else m
  }

  /** An index where the minimum sits. */
  lemma MinAt(s: seq<real>) returns (i: nat)
    requires |s| > 0
    ensures i < |s| && s[i] == Min(s)
  {
    i :| 0 <= i < |s| && s[i] == Min(s);
  }

  /** An index where the maximum sits. */
  lemma MaxAt(s: seq<real>) returns (i: nat)
    requires |s| > 0
    ensures i < |s| && s[i] == Max(s)
  {
    i :| 0 <= i < |s| && s[i] == Max(s);
  }

  /** Lists with the same elements have the same minimum and maximum. */
  lemma SameElementsSameBounds(s: seq<real>, t: seq<real>)
    requires |s| > 0 && |t| > 0
    requires forall a :: a in s <==> a in t
    ensures Min(s) == Min(t) && Max(s) == Max(t)
  {
    var ms, mt := Min(s), Min(t);
    var i :| 0 <= i < |s| && s[i] == mt;
    var j :| 0 <= j < |t| && t[j] == ms;
    var Ms, Mt := Max(s), Max(t);
    var i' :| 0 <= i' < |s| && s[i'] == Mt;
    var j' :| 0 <= j' < |t| && t[j'] == Ms;
  }

  /** The values of one axis, in record order. */
  function Xs(recs: seq<RawRecord>): seq<real> { seq(|recs|, k requires 0 <= k < |recs| => recs[k].x) }
  function Ys(recs: seq<RawRecord>): seq<real> { seq(|recs|, k requires 0 <= k < |recs| => recs[k].y) }
  function Zs(recs: seq<RawRecord>): seq<real> { seq(|recs|, k requires 0 <= k < |recs| => recs[k].z) }

  /** `rawPoints.forEach(p => { xs.push(p.x); ys.push(p.y); zs.push(p.z); })`. */
  method CollectAxes(recs: seq<RawRecord>) returns (xs: seq<real>, ys: seq<real>, zs: seq<real>)
    ensures xs == Xs(recs) && ys == Ys(recs) && zs == Zs(recs)
  {
    xs, ys, zs := [], [], [];
    for i := 0 to |recs|
      invariant |xs| == |ys| == |zs| == i
      invariant forall k :: 0 <= k < i ==> xs[k] == recs[k].x && ys[k] == recs[k].y && zs[k] == recs[k].z
    {
      xs := xs + [recs[i].x];
      ys := ys + [recs[i].y];
      zs := zs + [recs[i].z];
    }
    assert xs == Xs(recs);
    assert ys == Ys(recs);
    assert zs == Zs(recs);
  }

  /** The per-axis minima and maxima. */
  datatype Bounds = Bounds(minX: real, maxX: real, minY: real, maxY: real, minZ: real, maxZ: real)

  function BoundsOf(recs: seq<RawRecord>): Bounds
    requires |recs| > 0
  {
    Bounds(Min(Xs(recs)), Max(Xs(recs)), Min(Ys(recs)), Max(Ys(recs)), Min(Zs(recs)), Max(Zs(recs)))
  }

  /** No axis is degenerate: each has two different values (otherwise the source divides 0 by 0). */
  predicate Spread(recs: seq<RawRecord>)
  {
    |recs| > 0 ==>
      var b := BoundsOf(recs);
      b.minX < b.maxX && b.minY < b.maxY && b.minZ < b.maxZ
  }

  /** The value at fraction `q` of the way from `lo` to `hi`. */
  function Denormalise(q: real, lo: real, hi: real): real
  {
    lo + q * (hi - lo)
  }

  /**
   * `(v - lo) / (hi - lo)`: a value of `[lo, hi]` mapped linearly onto `[0, 1]`, `lo` to 0
   * and `hi` to 1; denormalising gives the value back.
   */
  function Scale(v: real, lo: real, hi: real): (r: real)
    requires lo < hi
    ensures lo <= v <= hi ==> 0.0 <= r <= 1.0
    ensures v == lo ==> r == 0.0
    ensures v == hi ==> r == 1.0
    ensures Denormalise(r, lo, hi) == v
  {
    ScaleFacts(v, lo, hi);
    (v - lo) / (hi - lo)
  }

  lemma ScaleFacts(v: real, lo: real, hi: real)
    requires lo < hi
    ensures lo <= v <= hi ==> 0.0 <= (v - lo) / (hi - lo) <= 1.0
    ensures Denormalise((v - lo) / (hi - lo), lo, hi) == v
    ensures v == lo ==> (v - lo) / (hi - lo) == 0.0
    ensures v == hi ==> (v - lo) / (hi - lo) == 1.0
  {
    var d := hi - lo;
    var r := (v - lo) / d;
    assert r * d == v - lo;
    if v == hi {
      assert (r - 1.0) * d == 0.0;
    }
  }

  predicate InUnitCube(v: Vec3)
  {
    0.0 <= v.x <= 1.0 && 0.0 <= v.y <= 1.0 && 0.0 <= v.z <= 1.0
  }

  predicate ProperBounds(b: Bounds)
  {
    b.minX < b.maxX && b.minY < b.maxY && b.minZ < b.maxZ
  }

  predicate WithinBounds(r: RawRecord, b: Bounds)
  {
    b.minX <= r.x <= b.maxX && b.minY <= r.y <= b.maxY && b.minZ <= r.z <= b.maxZ
  }

  /** Every record lies within the bounds of its batch. */
  lemma AllWithinBounds(recs: seq<RawRecord>)
    requires |recs| > 0
    ensures forall k :: 0 <= k < |recs| ==> WithinBounds(recs[k], BoundsOf(recs))
  {
    forall k | 0 <= k < |recs| ensures WithinBounds(recs[k], BoundsOf(recs)) {
      assert Xs(recs)[k] == recs[k].x && Ys(recs)[k] == recs[k].y && Zs(recs)[k] == recs[k].z;
    }
  }

  /** The normalised point of one record: its position scaled into the bounds, its raw values kept. */
  function NormalisePoint(r: RawRecord, b: Bounds): (pt: Point)
    requires ProperBounds(b)
    ensures pt.latitude == r.x && pt.longitude == r.y && pt.timestamp == r.z
    ensures WithinBounds(r, b) ==> InUnitCube(pt.position)
  {
    Point(Vec3(Scale(r.x, b.minX, b.maxX), Scale(r.y, b.minY, b.maxY), Scale(r.z, b.minZ, b.maxZ)),
          r.x, r.y, r.z)
  }

  /**
   * `rawPoints.map(p => ({ position, latitude: p.x, longitude: p.y, timestamp: p.z }))`:
   * one point per record, in order, inside the unit cube, keeping the raw values.
   */
  function Normalise(recs: seq<RawRecord>): (pts: seq<Point>)
    requires Spread(recs)
    ensures |pts| == |recs|
    ensures forall k :: 0 <= k < |pts| ==>
      pts[k].latitude == recs[k].x && pts[k].longitude == recs[k].y && pts[k].timestamp == recs[k].z
    ensures forall k :: 0 <= k < |pts| ==> InUnitCube(pts[k].position)
  {
    if recs == [] then []
    else
      AllWithinBounds(recs);
      NormaliseWith(recs, BoundsOf(recs))
  }

  /** The `map` callback applied to every record, with the bounds already computed. */
  function NormaliseWith(recs: seq<RawRecord>, b: Bounds): (pts: seq<Point>)
    requires ProperBounds(b)
    ensures |pts| == |recs|
    ensures forall k :: 0 <= k < |recs| ==> pts[k] == NormalisePoint(recs[k], b)
  {
    seq(|recs|, k requires 0 <= k < |recs| => NormalisePoint(recs[k], b))
  }

  lemma NormaliseAt(recs: seq<RawRecord>, k: nat)
    requires Spread(recs) && k < |recs|
    ensures ProperBounds(BoundsOf(recs)) && Normalise(recs)[k] == NormalisePoint(recs[k], BoundsOf(recs))
  {
  }

  /** A record holding an axis minimum lands on 0 on that axis, one holding the maximum on 1. */
  lemma NormaliseExtremes(recs: seq<RawRecord>, k: nat)
    requires Spread(recs) && k < |recs|
    ensures recs[k].x == Min(Xs(recs)) ==> Normalise(recs)[k].position.x == 0.0
    ensures recs[k].x == Max(Xs(recs)) ==> Normalise(recs)[k].position.x == 1.0
    ensures recs[k].y == Min(Ys(recs)) ==> Normalise(recs)[k].position.y == 0.0
    ensures recs[k].y == Max(Ys(recs)) ==> Normalise(recs)[k].position.y == 1.0
    ensures recs[k].z == Min(Zs(recs)) ==> Normalise(recs)[k].position.z == 0.0
    ensures recs[k].z == Max(Zs(recs)) ==> Normalise(recs)[k].position.z == 1.0
  {
    NormaliseAt(recs, k);
  }

  /** Denormalising a position with the bounds gives the raw values back. */
  lemma NormaliseInverse(recs: seq<RawRecord>, k: nat)
    requires Spread(recs) && k < |recs|
    ensures var b, q := BoundsOf(recs), Normalise(recs)[k].position;
      Denormalise(q.x, b.minX, b.maxX) == recs[k].x &&
      Denormalise(q.y, b.minY, b.maxY) == recs[k].y &&
      Denormalise(q.z, b.minZ, b.maxZ) == recs[k].z
  {
    NormaliseAt(recs, k);
  }

  /** Normalisation keeps the order of the values on every axis. */
  lemma NormaliseMonotone(recs: seq<RawRecord>, i: nat, j: nat)
    requires Spread(recs) && i < |recs| && j < |recs|
    ensures recs[i].x <= recs[j].x <==> Normalise(recs)[i].position.x <= Normalise(recs)[j].position.x
    ensures recs[i].y <= recs[j].y <==> Normalise(recs)[i].position.y <= Normalise(recs)[j].position.y
    ensures recs[i].z <= recs[j].z <==> Normalise(recs)[i].position.z <= Normalise(recs)[j].position.z
  {
    var b := BoundsOf(recs);
    NormaliseAt(recs, i);
    NormaliseAt(recs, j);
    ScaleMonotone(recs[i].x, recs[j].x, b.minX, b.maxX);
    ScaleMonotone(recs[i].y, recs[j].y, b.minY, b.maxY);
    ScaleMonotone(recs[i].z, recs[j].z, b.minZ, b.maxZ);
  }

  lemma ScaleMonotone(u: real, v: real, lo: real, hi: real)
    requires lo < hi
    ensures u <= v <==> Scale(u, lo, hi) <= Scale(v, lo, hi)
  {
    var su, sv := Scale(u, lo, hi), Scale(v, lo, hi);
    var d := hi - lo;
    assert lo + su * d == u && lo + sv * d == v;
    assert (su - sv) * d == su * d - sv * d;
    assert u - v == (su - sv) * d;
    PositiveFactor(su - sv, d);
  }

  /** Multiplying by a positive factor keeps the sign. */
  lemma PositiveFactor(a: real, d: real)
    requires d > 0.0
    ensures a <= 0.0 <==> a * d <= 0.0
  {
    if a > 0.0 {
      assert a * d > 0.0 * d;
    } else {
      assert (-a) * d >= 0.0 * d;
    }
  }

  /** A list and a reordering of it have the same elements. */
  lemma ReorderedElements(s: seq<real>, t: seq<real>, perm: seq<nat>)
    requires |perm| == |t| && |s| == |t|
    requires forall k :: 0 <= k < |perm| ==> perm[k] < |s| && t[k] == s[perm[k]]
    requires forall j :: 0 <= j < |s| ==> j in perm
    ensures forall a :: a in s <==> a in t
  {
    forall a ensures a in s <==> a in t {
      if a in t {
        var k :| 0 <= k < |t| && t[k] == a;
        assert s[perm[k]] == a;
      }
      if a in s {
        var j :| 0 <= j < |s| && s[j] == a;
        assert j in perm;
        var k :| 0 <= k < |perm| && perm[k] == j;
        assert t[k] == a;
      }
    }
  }

  /** Reordering the records reorders the points the same way and changes no position. */
  lemma NormaliseReorder(recs: seq<RawRecord>, perm: seq<nat>)
    requires Spread(recs) && |perm| == |recs|
    requires forall k :: 0 <= k < |perm| ==> perm[k] < |recs|
    requires forall j :: 0 <= j < |recs| ==> j in perm
    ensures var moved := seq(|perm|, k requires 0 <= k < |perm| => recs[perm[k]]);
      Spread(moved) &&
      forall k :: 0 <= k < |perm| ==> Normalise(moved)[k] == Normalise(recs)[perm[k]]
  {
    var moved := seq(|perm|, k requires 0 <= k < |perm| => recs[perm[k]]);
    if recs != [] {
      ReorderedElements(Xs(recs), Xs(moved), perm);
      ReorderedElements(Ys(recs), Ys(moved), perm);
      ReorderedElements(Zs(recs), Zs(moved), perm);
      SameElementsSameBounds(Xs(moved), Xs(recs));
      SameElementsSameBounds(Ys(moved), Ys(recs));
      SameElementsSameBounds(Zs(moved), Zs(recs));
      assert BoundsOf(moved) == BoundsOf(recs);
      forall k | 0 <= k < |perm| ensures Normalise(moved)[k] == Normalise(recs)[perm[k]] {
        NormaliseAt(moved, k);
        NormaliseAt(recs, perm[k]);
      }
    }
  }

  /** The whole `reader.onload` computation: parse, then normalise; None when it throws. */
  function Load(text: string, p: Parsers): (points: Option<seq<Point>>)
    requires LoadSpread(text, p)
    ensures points.None? <==> ParseText(text, p).None?
    ensures points.Some? ==> |points.value| == |ParseText(text, p).value|
    ensures points.Some? ==> forall k :: 0 <= k < |points.value| ==> InUnitCube(points.value[k].position)
  {
    match ParseText(text, p)
    case None => None
    case Some(recs) => Some(Normalise(recs))
  }

  /** The parsed records, when there are any, have no degenerate axis. */
  predicate LoadSpread(text: string, p: Parsers)
  {
    ParseText(text, p).Some? ==> Spread(ParseText(text, p).value)
  }

  /**
   * `reader.onload`: split the text, read the header, parse the rows with the colour
   * memo, gather the axes, take their bounds and normalise.
   */
  method OnLoad(text: string, p: Parsers) returns (points: Option<seq<Point>>)
    requires LoadSpread(text, p)
    ensures points == Load(text, p)
  {
    var lines := Split(text, '\n');
    var cols := HeaderColumns(lines[0]);
    var parsed, idToColorMap, hashed := ParseLines(lines, cols, p);
    assert parsed == ParseText(text, p);
    if parsed.None? {
      return None;
    }
    var rawPoints := parsed.value;
    var xs, ys, zs := CollectAxes(rawPoints);
    if |rawPoints| == 0 {
      // The bounds of empty lists are infinite, but no point uses them.
      return Some([]);
    }
    var bounds := Bounds(Min(xs), Max(xs), Min(ys), Max(ys), Min(zs), Max(zs));
    assert bounds == BoundsOf(rawPoints);
    points := Some(NormaliseWith(rawPoints, bounds));
  }
}
