/** Marker encoding of one earthquake feature: magnitude to circle radius,
    depth to a bucketed fill colour, and the style record handed to the
    map library's circle marker. */
module Markers {

  /** The six depth thresholds (km) that selectColor tests, in the order it tests them. */
  const Thresholds: seq<real> := [5.0, 20.0, 40.0, 50.0, 60.0, 70.0]

  /** The seven colours selectColor can return; Palette[k] is the colour of bucket k. */
  const Palette: seq<string> :=
    ["#9d34eb", "#34ebc6", "#d234eb", "#eb5934", "#34eb40", "#f5b042", "#1cba9e"]

  /** The scale factor of setMarkerSize. */
  const RadiusScale: real := 5.0

  predicate Ascending(s: seq<real>)
  {
    forall i, j :: 0 <= i < j < |s| ==> s[i] < s[j]
  }

  predicate Distinct<T(==)>(s: seq<T>)
  {
    forall i, j :: 0 <= i < |s| && 0 <= j < |s| && i != j ==> s[i] != s[j]
  }

  /** setMarkerSize: the radius is the magnitude times five, with no clamping,
      so a zero or negative magnitude gives a zero or negative radius. */
  function SetMarkerSize(magnitude: real): (radius: real)
    ensures radius == RadiusScale * magnitude
    ensures radius < 0.0 <==> magnitude < 0.0
    ensures radius == 0.0 <==> magnitude == 0.0
  {
    magnitude * RadiusScale
  }

  /** selectColor: a chain of strict `<` tests, first match wins. */
  function SelectColor(depth: real): (colour: string)
    ensures colour in Palette
  {
    if depth < 5.0 then "#9d34eb"
    else if depth < 20.0 then "#34ebc6"
    else if depth < 40.0 then "#d234eb"
    else if depth < 50.0 then "#eb5934"
    else if depth < 60.0 then "#34eb40"
    else if depth < 70.0 then "#f5b042"
    else "#1cba9e"
  }

  /** Reference definition of the bucket of a depth: the number of bounds
      that lie at or below it. */
  function Rank(depth: real, bounds: seq<real>): (k: nat)
    ensures k <= |bounds|
  {
    if bounds == [] then 0
    else (if bounds[0] <= depth then 1 else 0) + Rank(depth, bounds[1..])
  }

  /** Depth d lies in bucket k: at or above the k-th threshold (if any)
      and strictly below the next one (if any). */
  predicate InBucket(depth: real, k: nat)
  {
    k < |Palette| &&
    (k == 0 || Thresholds[k - 1] <= depth) &&
    (k == |Thresholds| || depth < Thresholds[k])
  }

  lemma ThresholdsAscending()
    ensures Ascending(Thresholds) && |Palette| == |Thresholds| + 1
  {
  }

  /** The seven colours are different strings, so "which colour" and
      "which bucket" are the same question. */
  lemma PaletteDistinct()
    ensures |Palette| == 7 && Distinct(Palette)
  {
  }

  /** Over ascending bounds, a depth that lies between bounds[k-1] and bounds[k]
      has rank k. */
  lemma {:induction false} RankBetween(depth: real, bounds: seq<real>, k: nat)
    requires Ascending(bounds) && k <= |bounds|
    requires k == 0 || bounds[k - 1] <= depth
    requires k == |bounds| || depth < bounds[k]
    ensures Rank(depth, bounds) == k
  {
    if bounds != [] {
      var tail := bounds[1..];
      assert Ascending(tail) by {
        forall i, j | 0 <= i < j < |tail| ensures tail[i] < tail[j] {
          assert tail[i] == bounds[i + 1] && tail[j] == bounds[j + 1];
        }
      }
      if k == 0 {
        assert 0 == |tail| || depth < tail[0] by {
          if 0 < |tail| { assert tail[0] == bounds[1] && bounds[0] < bounds[1]; }
        }
        RankBetween(depth, tail, 0);
      } else {
        assert bounds[0] <= depth by {
          if k - 1 > 0 { assert bounds[0] < bounds[k - 1]; }
        }
        assert k - 1 == 0 || tail[k - 2] <= depth by {
          if k - 1 > 0 { assert tail[k - 2] == bounds[k - 1]; }
        }
        assert k - 1 == |tail| || depth < tail[k - 1] by {
          if k - 1 < |tail| { assert tail[k - 1] == bounds[k]; }
        }
        RankBetween(depth, tail, k - 1);
      }
    }
  }

  /** selectColor agrees with the reference definition: it returns the colour
      of the bucket whose index is the number of thresholds at or below the depth. */
  lemma SelectColorByRank(depth: real)
    ensures InBucket(depth, Rank(depth, Thresholds))
    ensures SelectColor(depth) == Palette[Rank(depth, Thresholds)]
  {
    var k :=
      if depth < 5.0 then 0
      else if depth < 20.0 then 1
      else if depth < 40.0 then 2
      else if depth < 50.0 then 3
      else if depth < 60.0 then 4
      else if depth < 70.0 then 5
      else 6;
    ThresholdsAscending();
    RankBetween(depth, Thresholds, k);
  }

  /** selectColor is total and picks exactly one bucket: it returns the colour of
      bucket k if and only if the depth lies in bucket k. */
  lemma SelectColorIsBucket(depth: real, k: nat)
    requires k < |Palette|
    ensures SelectColor(depth) == Palette[k] <==> InBucket(depth, k)
  {
    // Both directions follow from the chain of tests, bucket by bucket.
  }

  /** The boundaries are strict: a depth exactly on threshold k is in the next,
      higher bucket, and every depth of bucket k is below it. */
  lemma ThresholdGoesUp(k: nat)
    requires k < |Thresholds|
    ensures SelectColor(Thresholds[k]) == Palette[k + 1]
    ensures forall d :: (k == 0 || Thresholds[k - 1] <= d) && d < Thresholds[k] ==> SelectColor(d) == Palette[k]
  {
    SelectColorIsBucket(Thresholds[k], k + 1);
    forall d | (k == 0 || Thresholds[k - 1] <= d) && d < Thresholds[k]
      ensures SelectColor(d) == Palette[k]
    {
      SelectColorIsBucket(d, k);
    }
  }

  /** Bucket indices never go down as the depth grows. */
  lemma {:induction false} RankMonotone(d1: real, d2: real, bounds: seq<real>)
    requires d1 <= d2
    ensures Rank(d1, bounds) <= Rank(d2, bounds)
    decreases |bounds|
  {
    if bounds != [] {
      RankMonotone(d1, d2, bounds[1..]);
    }
  }

  /** selectColor is monotone in bucket index: a deeper event never gets the
      colour of an earlier bucket than a shallower one. */
  lemma SelectColorMonotone(d1: real, d2: real, k1: nat, k2: nat)
    requires d1 <= d2 && k1 < |Palette| && k2 < |Palette|
    requires SelectColor(d1) == Palette[k1] && SelectColor(d2) == Palette[k2]
    ensures k1 <= k2
  {
    SelectColorByRank(d1);
    SelectColorByRank(d2);
    PaletteDistinct();
    RankMonotone(d1, d2, Thresholds);
  }

  /** The boundary examples: 4.999 is still violet, 5 is already teal, 70 is the last colour. */
  lemma BoundaryExamples()
    ensures SelectColor(4.999) == "#9d34eb" && SelectColor(5.0) == "#34ebc6"
    ensures SelectColor(19.999) == "#34ebc6" && SelectColor(20.0) == "#d234eb"
    ensures SelectColor(39.999) == "#d234eb" && SelectColor(40.0) == "#eb5934"
    ensures SelectColor(49.999) == "#eb5934" && SelectColor(50.0) == "#34eb40"
    ensures SelectColor(59.999) == "#34eb40" && SelectColor(60.0) == "#f5b042"
    ensures SelectColor(69.999) == "#f5b042" && SelectColor(70.0) == "#1cba9e"
  {
  }

  /** The parts of a GeoJSON feature that the marker reads. */
  datatype Properties = Properties(mag: real, place: string, time: int)
  datatype Geometry = Geometry(coordinates: seq<real>)
  datatype Feature = Feature(properties: Properties, geometry: Geometry)

  /** The options record passed to the circle marker. */
  datatype MarkerStyle = MarkerStyle(
    radius: real,
    fillColor: string,
    fillOpacity: real,
    color: string,
    stroke: bool,
    weight: real)

  /** The fill colour for coordinates[2]. A feature with fewer than three
      coordinates reads `undefined` there; every `<` against `undefined` is
      false, so selectColor falls through to its last colour. */
  function DepthColour(coordinates: seq<real>): (colour: string)
    ensures |coordinates| > 2 ==> colour == Palette[Rank(coordinates[2], Thresholds)]
    ensures |coordinates| <= 2 ==> colour == Palette[|Palette| - 1]
  {
    if |coordinates| > 2 then
      SelectColorByRank(coordinates[2]);
      SelectColor(coordinates[2])
    else
      "#1cba9e"
  }

  /** The options record that quakeMarkers builds for one feature. */
  function QuakeMarkerOptions(feature: Feature): (style: MarkerStyle)
    ensures style.radius == RadiusScale * feature.properties.mag
    ensures style.fillColor in Palette
    ensures |feature.geometry.coordinates| > 2 ==> style.fillColor == SelectColor(feature.geometry.coordinates[2])
    ensures |feature.geometry.coordinates| <= 2 ==> style.fillColor == Palette[|Palette| - 1]
    ensures style.fillOpacity == 0.7 && style.color == "black" && style.stroke && style.weight == 0.7
  {
    MarkerStyle(
      radius := SetMarkerSize(feature.properties.mag),
      fillColor := DepthColour(feature.geometry.coordinates),
      fillOpacity := 0.7,
      color := "black",
      stroke := true,
      weight := 0.7)
  }

  /** The radius and fill colour of a marker depend only on the magnitude and
      the depth: two features that agree on those get the same style. */
  lemma StyleDependsOnMagnitudeAndDepth(f1: Feature, f2: Feature)
    requires f1.properties.mag == f2.properties.mag
    requires |f1.geometry.coordinates| > 2 && |f2.geometry.coordinates| > 2
    requires f1.geometry.coordinates[2] == f2.geometry.coordinates[2]
    ensures QuakeMarkerOptions(f1) == QuakeMarkerOptions(f2)
  {
  }

  /** A concrete feature: magnitude 4.2 at depth 12.3 km gives radius 21 and teal. */
  lemma ExampleFeature()
    ensures QuakeMarkerOptions(Feature(Properties(4.2, "10km N of X", 1700000000000),
                                       Geometry([-120.5, 38.2, 12.3])))
            == MarkerStyle(21.0, "#34ebc6", 0.7, "black", true, 0.7)
  {
  }
}
