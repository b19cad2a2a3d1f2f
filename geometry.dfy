/** The map-point loop of `show_invasive_species_results`
    (invasive_utils.py): each feature contributes at most one point, taken
    from its `x`/`y` pair or else from the vertex mean of its first longest
    polygon ring. */
module Geometry {
  import opened Wrappers
  import opened Json

  /** A vertex `[x, y]` of a polygon ring. */
  datatype Vertex = Vertex(x: real, y: real)

  type Ring = seq<Vertex>

  /** The keys of a feature's `geometry` dict that the loop reads; a key
      that is absent is `None`. `rings` holds the decoded list of rings. */
  datatype Geom = Geom(x: Option<Json>, y: Option<Json>, rings: Option<seq<Ring>>)

  /** A feature: its geometry (`{}` when absent) and its attributes. */
  datatype Feature = Feature(geometry: Geom, attributes: map<string, Scalar>)

  /** A mean as `numpy.mean` returns it: NaN for an empty list. */
  datatype Mean = Value(v: real) | NaN

  /** A point coordinate: copied from `x`/`y` as given, or a ring mean. */
  datatype Coord = Given(j: Json) | Centroid(m: Mean)

  datatype Point = Point(lat: Coord, lon: Coord, origName: Scalar)

  function Sum(xs: seq<real>): real
  {
    if xs == [] then 0 as real else Sum(xs[..|xs| - 1]) + xs[|xs| - 1]
  }

  /** `np.mean(xs)`. */
  function MeanOf(xs: seq<real>): (m: Mean)
    ensures m.NaN? <==> xs == []
  {
    if xs == [] then NaN else Value(Sum(xs) / |xs| as real)
  }

  /** A sum of values within bounds is within the scaled bounds. */
  lemma {:induction false} SumBounds(xs: seq<real>, lo: real, hi: real)
    requires forall i :: 0 <= i < |xs| ==> lo <= xs[i] <= hi
    ensures |xs| as real * lo <= Sum(xs) <= |xs| as real * hi
  {
    if xs != [] {
      var init := xs[..|xs| - 1];
      assert forall i :: 0 <= i < |init| ==> lo <= init[i] <= hi by {
        forall i | 0 <= i < |init| ensures lo <= init[i] <= hi {
          assert init[i] == xs[i];
        }
      }
      SumBounds(init, lo, hi);
      assert |xs| as real * lo == |init| as real * lo + lo;
      assert |xs| as real * hi == |init| as real * hi + hi;
    }
  }

  /** The mean of values within bounds is within the bounds. */
  lemma MeanBounds(xs: seq<real>, lo: real, hi: real)
    requires xs != []
    requires forall i :: 0 <= i < |xs| ==> lo <= xs[i] <= hi
    ensures lo <= MeanOf(xs).v <= hi
  {
    SumBounds(xs, lo, hi);
    var n := |xs| as real;
    DivBounds(Sum(xs), n, lo, hi);
  }

  lemma DivBounds(s: real, n: real, lo: real, hi: real)
    requires n > 0 as real && n * lo <= s <= n * hi
    ensures lo <= s / n <= hi
  {
    assert s / n - lo == (s - n * lo) / n;
    assert hi - s / n == (n * hi - s) / n;
  }

  /** `max(rings, key=len)`: the index of the first ring of greatest
      length. */
  function LongestRing(rings: seq<Ring>): (k: nat)
    requires rings != []
    ensures k < |rings|
    ensures forall j :: 0 <= j < |rings| ==> |rings[j]| <= |rings[k]|
    ensures forall j :: 0 <= j < k ==> |rings[j]| < |rings[k]|
  {
    if |rings| == 1 then 0
    else
      var k := LongestRing(rings[..|rings| - 1]);
      if |rings[|rings| - 1]| > |rings[k]| then |rings| - 1 else k
  }

  function Xs(ring: Ring): (xs: seq<real>)
    ensures |xs| == |ring| && forall i :: 0 <= i < |ring| ==> xs[i] == ring[i].x
  {
    seq(|ring|, i requires 0 <= i < |ring| => ring[i].x)
  }

  function Ys(ring: Ring): (ys: seq<real>)
    ensures |ys| == |ring| && forall i :: 0 <= i < |ring| ==> ys[i] == ring[i].y
  {
    seq(|ring|, i requires 0 <= i < |ring| => ring[i].y)
  }

  /** The point one feature contributes, if any: `x`/`y` first, then a
      non-empty ring list (even if its longest ring is empty), else none. */
  function PointOf(f: Feature): (p: Option<Point>)
    ensures p.Some? ==> p.value.origName == (if "FS_UNIT_NAME" in f.attributes then f.attributes["FS_UNIT_NAME"] else Str(""))
    ensures f.geometry.x.Some? && f.geometry.y.Some? ==>
      p == Some(Point(Given(f.geometry.y.value), Given(f.geometry.x.value),
                      if "FS_UNIT_NAME" in f.attributes then f.attributes["FS_UNIT_NAME"] else Str("")))
    ensures p.None? <==> (f.geometry.x.None? || f.geometry.y.None?) && (f.geometry.rings.None? || f.geometry.rings.value == [])
  {
    var name := if "FS_UNIT_NAME" in f.attributes then f.attributes["FS_UNIT_NAME"] else Str("");
    var g := f.geometry;
    if g.x.Some? && g.y.Some? then Some(Point(Given(g.y.value), Given(g.x.value), name))
    else if g.rings.Some? && g.rings.value != [] then
      var ring := g.rings.value[LongestRing(g.rings.value)];
      Some(Point(Centroid(MeanOf(Ys(ring))), Centroid(MeanOf(Xs(ring))), name))
    else None
  }

  /** The points of a feature list, in feature order. */
  function Points(fs: seq<Feature>): (ps: seq<Point>)
    ensures |ps| <= |fs|
  {
    if fs == [] then []
    else
      var init := Points(fs[..|fs| - 1]);
      match PointOf(fs[|fs| - 1])
      case Some(p) => init + [p]
      case None => init
  }

  /** Concatenating feature lists concatenates their points: each feature
      contributes on its own, in order. */
  lemma {:induction false} PointsAppend(a: seq<Feature>, b: seq<Feature>)
    ensures Points(a + b) == Points(a) + Points(b)
    decreases |b|
  {
    if b == [] {
      assert a + b == a;
    } else {
      var b0 := b[..|b| - 1];
      assert (a + b)[..|a + b| - 1] == a + b0;
      PointsAppend(a, b0);
    }
  }

  /** A feature list where every feature has a point yields exactly one
      point per feature. */
  lemma {:induction false} PointsAll(fs: seq<Feature>)
    requires forall i :: 0 <= i < |fs| ==> PointOf(fs[i]).Some?
    ensures |Points(fs)| == |fs|
    ensures forall i :: 0 <= i < |fs| ==> Points(fs)[i] == PointOf(fs[i]).value
  {
    if fs != [] {
      var init := fs[..|fs| - 1];
      assert forall i :: 0 <= i < |init| ==> PointOf(init[i]).Some? by {
        forall i | 0 <= i < |init| ensures PointOf(init[i]).Some? {
          assert init[i] == fs[i];
        }
      }
      PointsAll(init);
      var p := PointOf(fs[|fs| - 1]).value;
      assert Points(fs) == Points(init) + [p];
      forall i | 0 <= i < |fs|
        ensures Points(fs)[i] == PointOf(fs[i]).value
      {
        if i < |init| {
          assert init[i] == fs[i];
        }
      }
    }
  }

  /** A polygon's point lies within the bounding box of its longest ring. */
  lemma CentroidInBox(f: Feature, lo: Vertex, hi: Vertex)
    requires f.geometry.x.None? && f.geometry.rings.Some? && f.geometry.rings.value != []
    requires var rs := f.geometry.rings.value; var ring := rs[LongestRing(rs)];
      ring != [] && forall i :: 0 <= i < |ring| ==> lo.x <= ring[i].x <= hi.x && lo.y <= ring[i].y <= hi.y
    ensures var p := PointOf(f).value;
      p.lat.m.Value? && lo.y <= p.lat.m.v <= hi.y && p.lon.m.Value? && lo.x <= p.lon.m.v <= hi.x
  {
    var rs := f.geometry.rings.value;
    var ring := rs[LongestRing(rs)];
    MeanBounds(Xs(ring), lo.x, hi.x);
    MeanBounds(Ys(ring), lo.y, hi.y);
  }

  /** The geometry loop: appends the point of each feature in turn. */
  method ExtractPoints(features: seq<Feature>) returns (points: seq<Point>)
    ensures points == Points(features)
  {
    points := [];
    for i := 0 to |features|
      invariant points == Points(features[..i])
    {
      assert features[..i + 1][..i] == features[..i];
      var f := features[i];
      var name := if "FS_UNIT_NAME" in f.attributes then f.attributes["FS_UNIT_NAME"] else Str("");
      var g := f.geometry;
      if g.x.Some? && g.y.Some? {
        points := points + [Point(Given(g.y.value), Given(g.x.value), name)];
      } else if g.rings.Some? && g.rings.value != [] {
        var ring := g.rings.value[LongestRing(g.rings.value)];
        points := points + [Point(Centroid(MeanOf(Ys(ring))), Centroid(MeanOf(Xs(ring))), name)];
      }
    }
    assert features[..|features|] == features;
  }
}
