/** The buffers handed to the renderer: interleaved coordinates, a colour
    per point for a plain cloud (`createPointCloud`) and a hue per point
    for the deformation cloud (`createDeformationVisualization`). */
module Visualization {
  import opened Wrappers
  import opened Geometry
  import opened Matching
  import opened Statistics

  /** The hue given to an undeformed point; a maximally deformed one gets 0. */
  const HueSpan: real := 0.7

  /** The colour triple a `THREE.Color` built from a hex value holds. */
  datatype Rgb = Rgb(r: real, g: real, b: real)

  /** Coordinate `c` of a point: 0 is x, 1 is y, 2 is z. */
  function Coordinate(p: Point, c: int): real
    requires 0 <= c < 3
  {
    if c == 0 then p.x else if c == 1 then p.y else p.z
  }

  /** Channel `c` of a colour: 0 is red, 1 is green, 2 is blue. */
  function Channel(color: Rgb, c: int): real
    requires 0 <= c < 3
  {
    if c == 0 then color.r else if c == 1 then color.g else color.b
  }

  /** The position buffer layout: x, y, z of each point in turn. */
  function Interleave(points: seq<Point>): (buf: seq<real>)
    ensures |buf| == 3 * |points|
  {
    if points == [] then []
    else [points[0].x, points[0].y, points[0].z] + Interleave(points[1..])
  }

  /** Slot `k` of the layout holds coordinate `k % 3` of point `k / 3`. */
  lemma {:induction false} InterleaveAt(points: seq<Point>, k: int)
    requires 0 <= k < 3 * |points|
    ensures Interleave(points)[k] == Coordinate(points[k / 3], k % 3)
  {
    if k >= 3 {
      InterleaveAt(points[1..], k - 3);
      assert points[1..][(k - 3) / 3] == points[k / 3];
    }
  }

  /** A buffer of the right length whose every slot holds the coordinate the
      layout assigns to it is the layout: nothing else is written. */
  lemma InterleaveDetermined(buf: seq<real>, points: seq<Point>)
    requires |buf| == 3 * |points|
    requires forall k :: 0 <= k < |buf| ==> buf[k] == Coordinate(points[k / 3], k % 3)
    ensures buf == Interleave(points)
  {
    forall k | 0 <= k < |buf|
      ensures buf[k] == Interleave(points)[k]
    {
      InterleaveAt(points, k);
    }
  }

  /** Reads the points back out of a position buffer. */
  function Deinterleave(buf: seq<real>): (points: seq<Point>)
    requires |buf| % 3 == 0
    ensures 3 * |points| == |buf|
  {
    if buf == [] then []
    else [Point(buf[0], buf[1], buf[2])] + Deinterleave(buf[3..])
  }

  /** Reading a position buffer back gives the points it was filled from. */
  lemma {:induction false} DeinterleaveInterleave(points: seq<Point>)
    ensures Deinterleave(Interleave(points)) == points
  {
    if points != [] {
      DeinterleaveInterleave(points[1..]);
      assert Interleave(points)[3..] == Interleave(points[1..]);
    }
  }

  /** Every buffer of whole triples is the layout of the points read from it. */
  lemma {:induction false} InterleaveDeinterleave(buf: seq<real>)
    requires |buf| % 3 == 0
    ensures Interleave(Deinterleave(buf)) == buf
  {
    if buf != [] {
      InterleaveDeinterleave(buf[3..]);
      assert buf == [buf[0], buf[1], buf[2]] + buf[3..];
    }
  }

  /** Slots `3i`, `3i + 1` and `3i + 2` belong to point `i`. */
  lemma SlotOfPoint(i: int, k: int)
    requires 0 <= i && 3 * i <= k < 3 * i + 3
    ensures k / 3 == i && k % 3 == k - 3 * i
  {
  }

  /** The buffers of a plain cloud: the coordinates in layout order and the
      same colour triple for every point. `color` is what `THREE.Color`
      makes of the cloud's hex colour. */
  method CreatePointCloud(points: seq<Point>, color: Rgb) returns (positions: array<real>, colors: array<real>)
    ensures fresh(positions) && fresh(colors)
    ensures positions[..] == Interleave(points)
    ensures colors.Length == 3 * |points|
    ensures forall k :: 0 <= k < colors.Length ==> colors[k] == Channel(color, k % 3)
  {
    positions := new real[|points| * 3];
    colors := new real[|points| * 3];
    for i := 0 to |points|
      invariant forall k :: 0 <= k < 3 * i ==> positions[k] == Coordinate(points[k / 3], k % 3)
      invariant forall k :: 0 <= k < 3 * i ==> colors[k] == Channel(color, k % 3)
    {
      positions[i * 3] := points[i].x;
      positions[i * 3 + 1] := points[i].y;
      positions[i * 3 + 2] := points[i].z;
      forall k | 3 * i <= k < 3 * i + 3 {
        SlotOfPoint(i, k);
      }

      colors[i * 3] := color.r;
      colors[i * 3 + 1] := color.g;
      colors[i * 3 + 2] := color.b;
    }
    InterleaveDetermined(positions[..], points);
  }

  /** Every record's deformation, unmatched ones included
      (`deformations.map(d => d.deformation)`). */
  function AllDeformations(ds: seq<Deformation>): (vs: seq<real>)
    ensures |vs| == |ds|
    ensures forall i :: 0 <= i < |ds| ==> vs[i] == ds[i].deformation
  {
    seq(|ds|, i requires 0 <= i < |ds| => ds[i].deformation)
  }

  /** The colour scale: the largest deformation over all records. */
  function ColorScale(ds: seq<Deformation>): (m: real)
    requires ds != []
    ensures forall i :: 0 <= i < |ds| ==> ds[i].deformation <= m
    ensures exists i :: 0 <= i < |ds| && ds[i].deformation == m
  {
    var all := AllDeformations(ds);
    var m := MaxOf(all).value;
    assert forall i :: 0 <= i < |ds| ==> all[i] in all;
    m
  }

  /** `deformation / maxDeformation`; `None` when the scale is 0, where the
      quotient is not a finite number. */
  function DeformationRatio(deformation: real, maxDeformation: real): (r: Option<real>)
    ensures r.None? <==> maxDeformation == 0.0
  {
    if maxDeformation == 0.0 then None else Some(deformation / maxDeformation)
  }

  /** A finite ratio times the scale gives back the deformation. */
  lemma RatioTimesScale(deformation: real, maxDeformation: real)
    requires maxDeformation != 0.0
    ensures DeformationRatio(deformation, maxDeformation).value * maxDeformation == deformation
  {
  }

  /** The hue `(1 - ratio) * 0.7` passed to `setHSL`; `None` where the ratio
      is not finite. */
  function DeformationHue(deformation: real, maxDeformation: real): (h: Option<real>)
    ensures h.None? <==> maxDeformation == 0.0
  {
    match DeformationRatio(deformation, maxDeformation)
    case None => None
    case Some(ratio) => Some((1.0 - ratio) * HueSpan)
  }

  /** The hue falls linearly from 0.7: what it has lost, times the scale, is
      0.7 times the deformation. */
  lemma HueIsLinear(deformation: real, maxDeformation: real)
    requires maxDeformation != 0.0
    ensures (HueSpan - DeformationHue(deformation, maxDeformation).value) * maxDeformation == HueSpan * deformation
  {
    var ratio := DeformationRatio(deformation, maxDeformation).value;
    RatioTimesScale(deformation, maxDeformation);
    assert HueSpan - DeformationHue(deformation, maxDeformation).value == ratio * HueSpan;
    assert ratio * HueSpan * maxDeformation == HueSpan * (ratio * maxDeformation);
  }

  /** Below a positive scale, the ratio lies in `[0, 1]` and the hue in
      `[0, 0.7]`. */
  lemma HueRange(deformation: real, maxDeformation: real)
    requires 0.0 <= deformation <= maxDeformation && maxDeformation > 0.0
    ensures DeformationRatio(deformation, maxDeformation).Some?
    ensures 0.0 <= DeformationRatio(deformation, maxDeformation).value <= 1.0
    ensures DeformationHue(deformation, maxDeformation).Some?
    ensures 0.0 <= DeformationHue(deformation, maxDeformation).value <= HueSpan
  {
    var ratio := deformation / maxDeformation;
    assert ratio * maxDeformation == deformation;
    if ratio > 1.0 {
      PositiveProduct(ratio - 1.0, maxDeformation);
    }
    if ratio < 0.0 {
      PositiveProduct(-ratio, maxDeformation);
    }
  }

  /** A larger deformation never gets a larger hue: the colour ramp runs one
      way only. */
  lemma HueAntitone(d1: real, d2: real, maxDeformation: real)
    requires d1 <= d2 && maxDeformation > 0.0
    ensures DeformationHue(d2, maxDeformation).value <= DeformationHue(d1, maxDeformation).value
  {
    var r1, r2 := d1 / maxDeformation, d2 / maxDeformation;
    assert r1 * maxDeformation == d1 && r2 * maxDeformation == d2;
    if r1 > r2 {
      PositiveProduct(r1 - r2, maxDeformation);
    }
  }

  /** The largest deformation gets hue 0 and no deformation gets hue 0.7;
      with a zero scale there is no finite hue. */
  lemma HueEndpoints(deformation: real, maxDeformation: real)
    ensures maxDeformation > 0.0 ==> DeformationHue(maxDeformation, maxDeformation) == Some(0.0)
    ensures maxDeformation > 0.0 ==> DeformationHue(0.0, maxDeformation) == Some(HueSpan)
    ensures DeformationHue(deformation, 0.0) == None
  {
    if maxDeformation > 0.0 {
      assert maxDeformation / maxDeformation == 1.0;
    }
  }

  /** The buffers of the deformation cloud: coordinates in layout order and,
      for point `i`, the hue of record `i` on the colour scale of all
      records. */
  method CreateDeformationVisualization(points: seq<Point>, deformations: seq<Deformation>)
    returns (positions: array<real>, hues: array<Option<real>>)
    requires |points| <= |deformations|
    ensures fresh(positions) && fresh(hues)
    ensures positions[..] == Interleave(points)
    ensures hues.Length == |points|
    ensures forall i :: 0 <= i < |points| ==>
      hues[i] == DeformationHue(deformations[i].deformation, ColorScale(deformations))
  {
    positions := new real[|points| * 3];
    hues := new Option<real>[|points|](_ => None);

    // `ColorScale` is the `Math.max` over all records; with no records the
    // loop below does not run, so the 0 is never used.
    var scale := if deformations == [] then 0.0 else ColorScale(deformations);

    for i := 0 to |points|
      invariant forall k :: 0 <= k < 3 * i ==> positions[k] == Coordinate(points[k / 3], k % 3)
      invariant forall k :: 0 <= k < i ==> hues[k] == DeformationHue(deformations[k].deformation, scale)
    {
      positions[i * 3] := points[i].x;
      positions[i * 3 + 1] := points[i].y;
      positions[i * 3 + 2] := points[i].z;
      forall k | 3 * i <= k < 3 * i + 3 {
        SlotOfPoint(i, k);
      }

      hues[i] := DeformationHue(deformations[i].deformation, scale);
    }
    InterleaveDetermined(positions[..], points);
  }

  /** For a matcher run, the colour scale is the statistics' maximum when
      some record is matched and 0 otherwise: the zeros of unmatched records
      never raise it. */
  lemma ColorScaleAgreesWithStats(dist: (Point, Point) -> real, ds: seq<Deformation>, points1: seq<Point>, points2: seq<Point>)
    requires IsEuclidean(dist)
    requires |ds| == |points1| && ds != []
    requires forall i :: 0 <= i < |ds| ==> Describes(dist, ds[i], points1[i], points2)
    ensures var s := DeformationStats(ds);
      ColorScale(ds) == if s.maxDeformation.Some? then s.maxDeformation.value else 0.0
  {
    var s := DeformationStats(ds);
    var scale := ColorScale(ds);
    forall i | 0 <= i < |ds|
      ensures 0.0 <= ds[i].deformation
    {
      DeformationIsInRangeMinimum(dist, ds[i], points1[i], points2);
    }
    var k :| 0 <= k < |ds| && ds[k].deformation == scale;
    if s.maxDeformation.Some? {
      var j :| 0 <= j < |ds| && ds[j].matched && ds[j].deformation == s.maxDeformation.value;
      assert ds[j].deformation <= scale;
      if !ds[k].matched {
        assert scale == 0.0;
      }
    } else {
      assert !ds[k].matched;
    }
  }

  /** For a matcher run with a positive colour scale, every point gets a
      hue in `[0, 0.7]`, hues never increase with deformation, the most
      deformed point gets hue 0 and every unmatched point hue 0.7; with a
      zero scale no point gets a finite hue. */
  lemma MatcherHues(dist: (Point, Point) -> real, ds: seq<Deformation>, points1: seq<Point>, points2: seq<Point>)
    requires IsEuclidean(dist)
    requires |ds| == |points1| && ds != []
    requires forall i :: 0 <= i < |ds| ==> Describes(dist, ds[i], points1[i], points2)
    ensures var m := ColorScale(ds);
      && (m > 0.0 ==> forall i :: 0 <= i < |ds| ==>
            DeformationHue(ds[i].deformation, m).Some? && 0.0 <= DeformationHue(ds[i].deformation, m).value <= HueSpan)
      && (m > 0.0 ==> forall i, j :: 0 <= i < |ds| && 0 <= j < |ds| && ds[i].deformation <= ds[j].deformation ==>
            DeformationHue(ds[j].deformation, m).value <= DeformationHue(ds[i].deformation, m).value)
      && (m > 0.0 ==> exists i :: 0 <= i < |ds| && DeformationHue(ds[i].deformation, m) == Some(0.0))
      && (m > 0.0 ==> forall i :: 0 <= i < |ds| && !ds[i].matched ==> DeformationHue(ds[i].deformation, m) == Some(HueSpan))
      && (m == 0.0 ==> forall i :: 0 <= i < |ds| ==> DeformationHue(ds[i].deformation, m).None?)
  {
    var m := ColorScale(ds);
    forall i | 0 <= i < |ds|
      ensures 0.0 <= ds[i].deformation
    {
      DeformationIsInRangeMinimum(dist, ds[i], points1[i], points2);
    }
    if m > 0.0 {
      forall i | 0 <= i < |ds|
        ensures DeformationHue(ds[i].deformation, m).Some?
        ensures 0.0 <= DeformationHue(ds[i].deformation, m).value <= HueSpan
      {
        HueRange(ds[i].deformation, m);
      }
      forall i, j | 0 <= i < |ds| && 0 <= j < |ds| && ds[i].deformation <= ds[j].deformation
        ensures DeformationHue(ds[j].deformation, m).value <= DeformationHue(ds[i].deformation, m).value
      {
        HueAntitone(ds[i].deformation, ds[j].deformation, m);
      }
      var k :| 0 <= k < |ds| && ds[k].deformation == m;
      HueEndpoints(m, m);
    }
    HueEndpoints(0.0, m);
  }
}
