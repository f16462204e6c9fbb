/** What a rendered tile shows: which triangles cover which samples, what is in front, where up is. */
module Pictures {
  import opened Wrappers
  import opened Geometry
  import opened Raster

  // ---- Inside a triangle ----------------------------------------------------------------------

  /** The sample is the weighted mean of the corners: a point of the triangle. */
  ghost predicate IsMean(t: Tri, u: real, v: real, w: real, sx: real, sy: real) {
    && u >= 0.0 && v >= 0.0 && w >= 0.0 && u + v + w == 1.0
    && u * t.p0.x + v * t.p1.x + w * t.p2.x == sx
    && u * t.p0.y + v * t.p1.y + w * t.p2.y == sy
  }

  /** Its height over the screen. */
  function HeightAt(t: Tri, u: real, v: real, w: real): real {
    u * t.p0.z + v * t.p1.z + w * t.p2.z
  }

  /** An edge function is affine in the sample: a constant and a multiple of each coordinate. */
  lemma EdgeIsAffine(p: Vec, q: Vec, sx: real, sy: real)
    ensures Edge(p, q, sx, sy) == (p.x * q.y - p.y * q.x) + sx * (p.y - q.y) + sy * (q.x - p.x)
  {
  }

  lemma AffineOfMean(k: real, l: real, m: real, u: real, v: real, w: real, ax: real, bx: real, cx: real, ay: real, ey: real, cy: real)
    requires u + v + w == 1.0
    ensures k + (u * ax + v * bx + w * cx) * l + (u * ay + v * ey + w * cy) * m
            == u * (k + ax * l + ay * m) + v * (k + bx * l + ey * m) + w * (k + cx * l + cy * m)
  {
    assert u * k + v * k + w * k == (u + v + w) * k;
  }

  lemma EdgeAtCorners(a: Vec, b: Vec, c: Vec)
    ensures Edge(b, c, a.x, a.y) == Area(a, b, c) && Edge(b, c, b.x, b.y) == 0.0 && Edge(b, c, c.x, c.y) == 0.0
  {
  }

  lemma TurnedArea(a: Vec, b: Vec, c: Vec)
    ensures Area(b, c, a) == Area(a, b, c) && Area(c, a, b) == Area(a, b, c)
  {
  }

  lemma TimesNothing(v: real, w: real)
    ensures v * 0.0 == 0.0 && w * 0.0 == 0.0
  {
  }

  /** The edge function opposite a corner is that corner's weight of the whole area. */
  lemma EdgeOfMean(a: Vec, b: Vec, c: Vec, u: real, v: real, w: real, sx: real, sy: real)
    requires u + v + w == 1.0
    requires sx == u * a.x + v * b.x + w * c.x && sy == u * a.y + v * b.y + w * c.y
    ensures Edge(b, c, sx, sy) == u * Area(a, b, c)
  {
    hide Edge, Area;
    var k, l, m := b.x * c.y - b.y * c.x, b.y - c.y, c.x - b.x;
    EdgeIsAffine(b, c, sx, sy);
    EdgeIsAffine(b, c, a.x, a.y);
    EdgeIsAffine(b, c, b.x, b.y);
    EdgeIsAffine(b, c, c.x, c.y);
    AffineOfMean(k, l, m, u, v, w, a.x, b.x, c.x, a.y, b.y, c.y);
    EdgeAtCorners(a, b, c);
    MeanOfEdges(u, v, w, k + a.x * l + a.y * m, k + b.x * l + b.y * m, k + c.x * l + c.y * m);
  }

  lemma MeanOfEdges(u: real, v: real, w: real, p: real, q: real, r: real)
    ensures q == 0.0 && r == 0.0 ==> u * p + v * q + w * r == u * p
  {
    TimesNothing(v, w);
  }

  lemma WeightBack(u: real, area: real, inverse: real)
    requires area * inverse == 1.0
    ensures u * area * inverse == u
  {
    assert u * area * inverse == u * (area * inverse);
  }

  /** A point's weights are the ones it is the mean by. */
  lemma WeightsAreItsOwn(t: Tri, u: real, v: real, w: real, sx: real, sy: real)
    requires Normalised(t) && IsMean(t, u, v, w, sx, sy)
    ensures Weight0(t, sx, sy) == u && Weight1(t, sx, sy) == v && Weight2(t, sx, sy) == w
  {
    hide Edge, Area;
    var area := Area(t.p0, t.p1, t.p2);
    EdgeOfMean(t.p0, t.p1, t.p2, u, v, w, sx, sy);
    EdgeOfMean(t.p1, t.p2, t.p0, v, w, u, sx, sy);
    EdgeOfMean(t.p2, t.p0, t.p1, w, u, v, sx, sy);
    TurnedArea(t.p0, t.p1, t.p2);
    WeightBack(u, area, t.inverse);
    WeightBack(v, area, t.inverse);
    WeightBack(w, area, t.inverse);
  }

  /** Every point of a triangle is covered, at its height there. */
  lemma InsideIsCovered(t: Tri, u: real, v: real, w: real, sx: real, sy: real)
    requires Normalised(t) && IsMean(t, u, v, w, sx, sy)
    ensures Coverage(t, sx, sy) == Some(HeightAt(t, u, v, w))
  {
    hide Weight0, Weight1, Weight2, Normalised, DepthAt, HeightAt;
    WeightsAreItsOwn(t, u, v, w, sx, sy);
    DepthIsHeight(t, u, v, w);
  }

  lemma DepthIsHeight(t: Tri, u: real, v: real, w: real)
    ensures DepthAt(t, u, v, w) == HeightAt(t, u, v, w)
  {
  }

  /** A sample is the mean of the corners by its own weights. */
  lemma WeightsMakeTheSample(t: Tri, sx: real, sy: real)
    requires Normalised(t)
    ensures var u, v, w := Weight0(t, sx, sy), Weight1(t, sx, sy), Weight2(t, sx, sy);
            && u + v + w == 1.0
            && u * t.p0.x + v * t.p1.x + w * t.p2.x == sx
            && u * t.p0.y + v * t.p1.y + w * t.p2.y == sy
  {
    hide Edge, Area;
    var e0, e1, e2 := Edge(t.p1, t.p2, sx, sy), Edge(t.p2, t.p0, sx, sy), Edge(t.p0, t.p1, sx, sy);
    var area := Area(t.p0, t.p1, t.p2);
    EdgesMakeTheArea(t.p0, t.p1, t.p2, sx, sy);
    EdgesWeighX(t.p0, t.p1, t.p2, sx, sy);
    EdgesWeighY(t.p0, t.p1, t.p2, sx, sy);
    Weighed(e0, e1, e2, area, t.inverse, 1.0, 1.0, 1.0, 1.0);
    Weighed(e0, e1, e2, area, t.inverse, t.p0.x, t.p1.x, t.p2.x, sx);
    Weighed(e0, e1, e2, area, t.inverse, t.p0.y, t.p1.y, t.p2.y, sy);
  }

  /** Nothing else is. */
  lemma CoveredIsInside(t: Tri, sx: real, sy: real) returns (u: real, v: real, w: real)
    requires Normalised(t) && Coverage(t, sx, sy).Some?
    ensures IsMean(t, u, v, w, sx, sy) && Coverage(t, sx, sy) == Some(HeightAt(t, u, v, w))
  {
    hide Weight0, Weight1, Weight2, Normalised, DepthAt, HeightAt;
    WeightsMakeTheSample(t, sx, sy);
    u, v, w := Weight0(t, sx, sy), Weight1(t, sx, sy), Weight2(t, sx, sy);
    DepthIsHeight(t, u, v, w);
  }

  // ---- Depth ----------------------------------------------------------------------------------

  lemma PlaneIdentity(ux: real, uy: real, uz: real, vx: real, vy: real, vz: real, v: real, w: real)
    ensures (uy * vz - uz * vy) * (v * ux + w * vx) + (uz * vx - ux * vz) * (v * uy + w * vy)
            + (ux * vy - uy * vx) * (v * uz + w * vz) == 0.0
  {
  }

  lemma FromCorner(u: real, v: real, w: real, p: real, q: real, r: real)
    requires u + v + w == 1.0
    ensures u * p + v * q + w * r - p == v * (q - p) + w * (r - p)
  {
    assert u * p == (1.0 - v - w) * p;
  }

  /** The depth at a covered sample is the height of the plane through the three pixel corners. */
  lemma DepthIsOnThePlane(t: Tri, sx: real, sy: real)
    requires Normalised(t) && Coverage(t, sx, sy).Some?
    ensures Dot(Cross(Minus(t.p1, t.p0), Minus(t.p2, t.p0)), Minus(Vec(sx, sy, Coverage(t, sx, sy).value), t.p0)) == 0.0
  {
    hide Coverage, Normalised;
    var u, v, w := CoveredIsInside(t, sx, sy);
    var d := Coverage(t, sx, sy).value;
    var a, b := Minus(t.p1, t.p0), Minus(t.p2, t.p0);
    FromCorner(u, v, w, t.p0.x, t.p1.x, t.p2.x);
    FromCorner(u, v, w, t.p0.y, t.p1.y, t.p2.y);
    FromCorner(u, v, w, t.p0.z, t.p1.z, t.p2.z);
    PlaneIdentity(a.x, a.y, a.z, b.x, b.y, b.z, v, w);
    assert Minus(Vec(sx, sy, d), t.p0) == Vec(v * a.x + w * b.x, v * a.y + w * b.y, v * a.z + w * b.z);
  }

  /** At a corner it is the corner's own. */
  lemma CornerHasItsDepth(t: Tri)
    requires Normalised(t)
    ensures Coverage(t, t.p0.x, t.p0.y) == Some(t.p0.z)
    ensures Coverage(t, t.p1.x, t.p1.y) == Some(t.p1.z)
    ensures Coverage(t, t.p2.x, t.p2.y) == Some(t.p2.z)
  {
    hide Coverage, Normalised;
    InsideIsCovered(t, 1.0, 0.0, 0.0, t.p0.x, t.p0.y);
    InsideIsCovered(t, 0.0, 1.0, 0.0, t.p1.x, t.p1.y);
    InsideIsCovered(t, 0.0, 0.0, 1.0, t.p2.x, t.p2.y);
  }

  lemma DepthIsBetween(t: Tri, sx: real, sy: real)
    requires Normalised(t) && Coverage(t, sx, sy).Some?
    ensures Min3(t.p0.z, t.p1.z, t.p2.z) <= Coverage(t, sx, sy).value <= Max3(t.p0.z, t.p1.z, t.p2.z)
  {
    hide Coverage, Normalised, Min3, Max3;
    var u, v, w := CoveredIsInside(t, sx, sy);
    MeanIsBetween(u, v, w, t.p0.z, t.p1.z, t.p2.z);
  }

  // ---- What is in front -----------------------------------------------------------------------

  /** Every corner of one triangle is nearer than every corner of the other. */
  predicate IsInFront(s: Tri, t: Tri) {
    Min3(s.p0.z, s.p1.z, s.p2.z) > Max3(t.p0.z, t.p1.z, t.p2.z)
  }

  lemma FrontIsShown(tris: seq<Tri>, size: nat, near: nat, far: nat, x: int, y: int)
    requires GoodTris(tris, size) && near < |tris| && far < |tris| && IsInFront(tris[near], tris[far])
    requires CoversAt(tris[near], x, y) && CoversAt(tris[far], x, y)
    ensures Best(tris, x, y).Some? && IsNearest(tris, Best(tris, x, y).value, x, y) && Best(tris, x, y).value.index != far
  {
    hide Coverage, Normalised, TriInFrame, Min3, Max3, Sample, Best;
    BestIsNearest(tris, x, y);
    DepthIsBetween(tris[near], Sample(x), Sample(y));
    DepthIsBetween(tris[far], Sample(x), Sample(y));
  }

  /** The results of `prepare` that are there, in order. */
  function Results(prepare: nat -> Option<Prepared>, n: nat): seq<Prepared> {
    if n == 0 then [] else Results(prepare, n - 1) + if prepare(n - 1).Some? then [prepare(n - 1).value] else []
  }

  lemma {:induction false} PlaceAmongResults(prepare: nat -> Option<Prepared>, n: nat, t: nat)
    requires t < n && prepare(t).Some?
    ensures var k := |Results(prepare, t)|; k < |Results(prepare, n)| && Results(prepare, n)[k] == prepare(t).value
    decreases n
  {
    if t < n - 1 {
      PlaceAmongResults(prepare, n - 1, t);
    }
  }

  /** There are none exactly when every attempt failed. */
  lemma {:induction false} NoResults(prepare: nat -> Option<Prepared>, n: nat)
    ensures Results(prepare, n) == [] <==> forall t :: 0 <= t < n ==> prepare(t).None?
  {
    if n > 0 {
      NoResults(prepare, n - 1);
    }
  }

  /** The triangles of a mesh as results of preparing them. */
  function Preparing(positions: seq<real>): nat -> Option<Prepared> {
    (t: nat) => if 9 * t + 9 <= |positions| then PrepareTriangle(positions, 9 * t) else None
  }

  lemma {:induction false} SceneIsResults(positions: seq<real>, n: nat)
    requires 9 * n <= |positions|
    ensures Scene(positions, n) == Results(Preparing(positions), n)
  {
    hide PrepareTriangle;
    if n > 0 {
      SceneIsResults(positions, n - 1);
    }
  }

  /** How near a corner is: how far it lies along the direction towards the camera. */
  function Nearness(positions: seq<real>, k: nat): real
    requires k + 3 <= |positions|
  {
    Dot(Corner(positions, k), VIEW)
  }

  function InPixels(v: real, low: real, scale: real): real {
    (v - low) * scale
  }

  lemma NearerInPixels(p: real, q: real, low: real, scale: real)
    requires p > q && scale > 0.0
    ensures InPixels(p, low, scale) > InPixels(q, low, scale)
  {
    Distributes(scale, p - low, q - low);
    ProductPositive(scale, p - q);
    assert scale * (p - q) == scale * ((p - low) - (q - low));
  }

  lemma ProductPositive(a: real, b: real)
    requires a > 0.0 && b > 0.0
    ensures a * b > 0.0
  {
  }

  predicate AllAbove(a: real, b: real, c: real, d: real, e: real, f: real) {
    a > d && a > e && a > f && b > d && b > e && b > f && c > d && c > e && c > f
  }

  lemma AboveInAll(a: real, b: real, c: real, d: real, e: real, f: real)
    requires AllAbove(a, b, c, d, e, f)
    ensures Min3(a, b, c) > Max3(d, e, f)
  {
  }

  lemma AboveInPixels(a: real, b: real, c: real, d: real, e: real, f: real, low: real, scale: real)
    requires AllAbove(a, b, c, d, e, f) && scale > 0.0
    ensures AllAbove(
              InPixels(a, low, scale), InPixels(b, low, scale), InPixels(c, low, scale),
              InPixels(d, low, scale), InPixels(e, low, scale), InPixels(f, low, scale))
  {
    hide InPixels;
    NearerInPixels(a, d, low, scale);
    NearerInPixels(a, e, low, scale);
    NearerInPixels(a, f, low, scale);
    NearerInPixels(b, d, low, scale);
    NearerInPixels(b, e, low, scale);
    NearerInPixels(b, f, low, scale);
    NearerInPixels(c, d, low, scale);
    NearerInPixels(c, e, low, scale);
    NearerInPixels(c, f, low, scale);
  }

  lemma PixelParts(fit: Fit, s: Vec)
    ensures ToPixel(fit, s)
            == Vec(InPixels(s.x, fit.centreX, fit.scale) + fit.half,
                   fit.half - InPixels(s.y, fit.centreY, fit.scale),
                   InPixels(s.z, fit.minDepth, fit.scale))
  {
  }

  lemma PixelDepths(optics: Optics, fit: Fit, p: Prepared)
    requires p.area != 0.0 && fit.scale > 0.0
    ensures var t := TriOf(optics, fit, p);
            && t.p0.z == InPixels(p.s0.z, fit.minDepth, fit.scale)
            && t.p1.z == InPixels(p.s1.z, fit.minDepth, fit.scale)
            && t.p2.z == InPixels(p.s2.z, fit.minDepth, fit.scale)
  {
    hide Face, AreaInPixels, ToPixel, InPixels;
    PixelParts(fit, p.s0);
    PixelParts(fit, p.s1);
    PixelParts(fit, p.s2);
  }

  lemma NearerIsInFront(optics: Optics, fit: Fit, p: Prepared, q: Prepared)
    requires p.area != 0.0 && q.area != 0.0 && fit.scale > 0.0
    requires AllAbove(p.s0.z, p.s1.z, p.s2.z, q.s0.z, q.s1.z, q.s2.z)
    ensures IsInFront(TriOf(optics, fit, p), TriOf(optics, fit, q))
  {
    hide TriOf, AllAbove, Min3, Max3, InPixels;
    PixelDepths(optics, fit, p);
    PixelDepths(optics, fit, q);
    AboveInPixels(p.s0.z, p.s1.z, p.s2.z, q.s0.z, q.s1.z, q.s2.z, fit.minDepth, fit.scale);
    var s, t := TriOf(optics, fit, p), TriOf(optics, fit, q);
    AboveInAll(s.p0.z, s.p1.z, s.p2.z, t.p0.z, t.p1.z, t.p2.z);
  }

  /**
   Where two triangles of a mesh cover a pixel and every corner of one is nearer to the camera than
   every corner of the other, the farther one is not what the picture shows there.
   */
  lemma NearerTriangleHides(
    optics: Optics, positions: seq<real>, count: nat, size: nat, rgb: seq<Rgb>, near: nat, far: nat, x: nat, y: nat)
    requires Renders(optics, positions, count, size, Ok(rgb)) && near < count && far < count
    requires |positions| == 9 * count && PrepareTriangle(positions, 9 * near).Some? && PrepareTriangle(positions, 9 * far).Some?
    requires forall i, j :: 0 <= i < 3 && 0 <= j < 3 ==>
               Nearness(positions, 9 * near + 3 * i) > Nearness(positions, 9 * far + 3 * j)
    requires |Scene(positions, near)| < |Scene(positions, count)| && |Scene(positions, far)| < |Scene(positions, count)|
    requires var tris := PixelScene(optics, Scene(positions, count), size);
             && CoversAt(tris[|Scene(positions, near)|], x, y) && CoversAt(tris[|Scene(positions, far)|], x, y)
             && x < size && y < size
    ensures var tris := PixelScene(optics, Scene(positions, count), size);
            exists hit :: IsNearest(tris, hit, x, y) && hit.index != |Scene(positions, far)|
              && 0 <= y * size + x < |rgb| && rgb[y * size + x] == hit.face
  {
    hide Scene, PixelScene, BoundsOf, FitOf, Extent, GoodScene, GoodTris, IsUsable, Best, CoversAt, IsNearest, PrepareTriangle, AllAbove,
      IsInFront, Nearness, Results;
    var scene := Scene(positions, count);
    var tris := PixelScene(optics, scene, size);
    var n, f := |Scene(positions, near)|, |Scene(positions, far)|;
    SceneIsGood(positions, count);
    SceneIsRenderable(optics, scene, size);
    var prepare := Preparing(positions);
    SceneIsResults(positions, near);
    SceneIsResults(positions, far);
    SceneIsResults(positions, count);
    PlaceAmongResults(prepare, count, near);
    PlaceAmongResults(prepare, count, far);
    DepthIsNearness(positions, 9 * near);
    DepthIsNearness(positions, 9 * far);
    assert AllAbove(scene[n].s0.z, scene[n].s1.z, scene[n].s2.z, scene[f].s0.z, scene[f].s1.z, scene[f].s2.z) by {
      NearnessesAbove(positions, 9 * near, 9 * far);
    }
    InFrontInScene(optics, scene, size, n, f);
    FrontIsShown(tris, size, n, f, x, y);
    IndexOfPixel(x, y, size);
  }

  lemma NearnessesAbove(positions: seq<real>, a: nat, b: nat)
    requires a + 9 <= |positions| && b + 9 <= |positions|
    requires forall i, j :: 0 <= i < 3 && 0 <= j < 3 ==> Nearness(positions, a + 3 * i) > Nearness(positions, b + 3 * j)
    ensures AllAbove(
              Nearness(positions, a), Nearness(positions, a + 3), Nearness(positions, a + 6),
              Nearness(positions, b), Nearness(positions, b + 3), Nearness(positions, b + 6))
  {
    hide Nearness;
    assert a + 3 * 0 == a && b + 3 * 0 == b && a + 3 * 1 == a + 3 && b + 3 * 1 == b + 3 && a + 3 * 2 == a + 6 && b + 3 * 2 == b + 6;
  }

  lemma DepthIsNearness(positions: seq<real>, at: nat)
    requires at + 9 <= |positions|
    ensures PrepareTriangle(positions, at).Some? ==>
              var p := PrepareTriangle(positions, at).value;
              p.s0.z == Nearness(positions, at) && p.s1.z == Nearness(positions, at + 3) && p.s2.z == Nearness(positions, at + 6)
  {
    hide FaceNormal, Area, Dot;
  }

  lemma InFrontInScene(optics: Optics, scene: seq<Prepared>, size: nat, n: nat, f: nat)
    requires scene != [] && Extent(BoundsOf(scene).value) > 0.0 && IsUsable(FitOf(BoundsOf(scene).value, size), scene)
    requires n < |scene| && f < |scene|
    requires AllAbove(scene[n].s0.z, scene[n].s1.z, scene[n].s2.z, scene[f].s0.z, scene[f].s1.z, scene[f].s2.z)
    ensures |PixelScene(optics, scene, size)| == |scene|
    ensures IsInFront(PixelScene(optics, scene, size)[n], PixelScene(optics, scene, size)[f])
  {
    hide BoundsOf, FitOf, Extent, AllAbove, TriOf, IsInFront;
    var fit := FitOf(BoundsOf(scene).value, size);
    TrisAt(optics, fit, scene, n);
    TrisAt(optics, fit, scene, f);
    NearerIsInFront(optics, fit, scene[n], scene[f]);
  }

  /**
   A pixel is decided at its centre: background where no triangle covers it, else the face of a
   covering triangle that none is nearer than, and none before it as near.
   */
  lemma PixelIsDecided(rgb: seq<Rgb>, tris: seq<Tri>, size: nat, x: nat, y: nat)
    requires IsPicture(rgb, tris, size) && x < size && y < size
    ensures 0 <= y * size + x < |rgb|
    ensures var sx, sy, pixel := x as real + 0.5, y as real + 0.5, rgb[y * size + x];
            if forall k :: 0 <= k < |tris| ==> Coverage(tris[k], sx, sy).None? then pixel == Rgb(31, 35, 42)
            else exists k :: 0 <= k < |tris| && Coverage(tris[k], sx, sy).Some? && pixel == tris[k].face
                   && forall j :: 0 <= j < |tris| && Coverage(tris[j], sx, sy).Some? ==>
                        var near, other := Coverage(tris[k], sx, sy).value, Coverage(tris[j], sx, sy).value;
                        other <= near && (j < k ==> other < near)
  {
    hide Best, Coverage;
    IndexOfPixel(x, y, size);
    BestIsNearest(tris, x, y);
    assert Sample(x) == x as real + 0.5 && Sample(y) == y as real + 0.5;
    var best := Best(tris, x, y);
    if best.Some? {
      assert Coverage(tris[best.value.index], Sample(x), Sample(y)).Some?;
    }
  }

  lemma Binet(u: Vec, v: Vec, r: Vec, q: Vec)
    ensures Dot(u, r) * Dot(v, q) - Dot(u, q) * Dot(v, r) == Dot(Cross(u, v), Cross(r, q))
  {
  }

  lemma DotOfDifference(a: Vec, b: Vec, axis: Vec)
    ensures Dot(b, axis) - Dot(a, axis) == Dot(Minus(b, a), axis)
  {
  }

  /** The screen area of a triangle is what its normal has along the line of sight. */
  lemma ScreenArea(a: Vec, b: Vec, c: Vec)
    ensures Area(Project(a), Project(b), Project(c)) == Dot(FaceNormal(a, b, c), Cross(RIGHT, UP))
  {
    hide Dot, Cross;
    DotOfDifference(a, b, RIGHT);
    DotOfDifference(a, b, UP);
    DotOfDifference(a, c, RIGHT);
    DotOfDifference(a, c, UP);
    Binet(Minus(b, a), Minus(c, a), RIGHT, UP);
  }

  function Product(p: real, q: real): real {
    p * q
  }

  lemma Signs(p: real, q: real)
    ensures p > 0.0 && q > 0.0 ==> Product(p, q) > 0.0
    ensures p < 0.0 && q < 0.0 ==> Product(p, q) > 0.0
    ensures p == 0.0 ==> Product(p, q) == 0.0
  {
    if p < 0.0 && q < 0.0 {
      ProductPositive(-p, -q);
      assert (-p) * (-q) == p * q;
    }
  }

  lemma SquareSign(a: real)
    ensures Product(a, a) >= 0.0 && (Product(a, a) == 0.0 ==> a == 0.0)
  {
    hide Product;
    Signs(a, a);
  }

  lemma DotOfSelf(n: Vec)
    ensures Dot(n, n) == Product(n.x, n.x) + Product(n.y, n.y) + Product(n.z, n.z)
  {
  }

  lemma DotOfNothing(l: Vec)
    ensures Dot(Vec(0.0, 0.0, 0.0), l) == 0.0
  {
  }

  lemma NoNormalNoArea(n: Vec, l: Vec)
    requires Dot(n, n) == 0.0
    ensures Dot(n, l) == 0.0
  {
    hide Dot, Product;
    DotOfSelf(n);
    SquareSign(n.x);
    SquareSign(n.y);
    SquareSign(n.z);
    assert n == Vec(0.0, 0.0, 0.0);
    DotOfNothing(l);
  }

  /**
   Nine numbers are three corners, each of them projected, with the normal they turn about and the
   area they have on the screen.
   */
  lemma NineNumbers(positions: seq<real>, at: nat)
    requires at + 9 <= |positions|
    ensures var a := Vec(positions[at], positions[at + 1], positions[at + 2]);
            var b := Vec(positions[at + 3], positions[at + 4], positions[at + 5]);
            var c := Vec(positions[at + 6], positions[at + 7], positions[at + 8]);
            var p := Prepared(
              Cross(Minus(b, a), Minus(c, a)), Project(a), Project(b), Project(c), Area(Project(a), Project(b), Project(c)));
            PrepareTriangle(positions, at) == if IsDrawable(p) then Some(p) else None
  {
  }

  /** A triangle is drawn exactly when it is not seen edge-on: the test for a normal of length zero never decides. */
  lemma DrawnUnlessEdgeOn(p: Prepared)
    requires p.area == Dot(p.normal, Cross(RIGHT, UP))
    ensures IsDrawable(p) <==> p.area != 0.0
  {
    hide Dot, Cross;
    if Dot(p.normal, p.normal) == 0.0 {
      NoNormalNoArea(p.normal, Cross(RIGHT, UP));
    }
  }

  /** Which meshes are refused before anything is drawn, and for what; the error of no extent is for none. */
  lemma WhatIsRefused(optics: Optics, positions: seq<real>, count: nat, size: nat, r: Result<seq<Rgb>, RenderError>)
    requires Renders(optics, positions, count, size, r)
    ensures r == Err(BadSize) <==> size == 0 || size > 4096
    ensures 1 <= size <= 4096 ==> (r == Err(NoTriangles) <==> count == 0)
    ensures 1 <= size <= 4096 && count > 0 ==> (r == Err(LengthMismatch) <==> |positions| != 9 * count)
    ensures 1 <= size <= 4096 && count > 0 && |positions| == 9 * count ==>
              (r == Err(NothingDrawable) <==> Scene(positions, count) == [])
    ensures r != Err(ZeroExtent)
  {
    hide Scene, BoundsOf, FitOf, Extent, IsUsable, PixelScene, PaintsNothing, IsPicture;
  }

  /** Where nothing covers, the picture shows the dark slate of the background. */
  lemma BackgroundShows(rgb: seq<Rgb>, tris: seq<Tri>, size: nat, x: nat, y: nat)
    requires IsPicture(rgb, tris, size) && x < size && y < size
    requires forall k :: 0 <= k < |tris| ==> !CoversAt(tris[k], x, y)
    ensures 0 <= y * size + x < |rgb| && rgb[y * size + x] == Rgb(31, 35, 42)
  {
    hide Best, CoversAt;
    IndexOfPixel(x, y, size);
    BestIsNearest(tris, x, y);
  }

  // ---- The camera -----------------------------------------------------------------------------

  predicate IsNear(a: real, b: real) {
    -0.000000000001 <= a - b <= 0.000000000001
  }

  /** The basis is orthonormal and right-handed to twelve places, at the isometric elevation. */
  lemma CameraIsRightHanded()
    ensures IsNear(Dot(RIGHT, RIGHT), 1.0) && IsNear(Dot(UP, UP), 1.0) && IsNear(Dot(VIEW, VIEW), 1.0)
    ensures var n := Cross(RIGHT, UP); IsNear(n.x, VIEW.x) && IsNear(n.y, VIEW.y) && IsNear(n.z, VIEW.z)
    ensures IsNear(3.0 * VIEW.z * VIEW.z, 1.0)
  {
  }

  lemma Along(p: Vec, d: Vec, axis: Vec)
    ensures Dot(Vec(p.x + d.x, p.y + d.y, p.z + d.z), axis) == Dot(p, axis) + Dot(d, axis)
  {
  }

  lemma LaterInPixels(v: real, w: real, centre: real, scale: real)
    requires scale > 0.0
    ensures v < w ==> InPixels(v, centre, scale) < InPixels(w, centre, scale)
  {
    hide InPixels;
    if v < w {
      NearerInPixels(w, v, centre, scale);
    }
  }

  /** The fit keeps left and right and near and far, and turns the screen's up into the picture's. */
  lemma FitKeepsOrder(fit: Fit, s: Vec, t: Vec)
    requires fit.scale > 0.0
    ensures var a, b := ToPixel(fit, s), ToPixel(fit, t);
            && (s.x < t.x ==> a.x < b.x) && (s.x == t.x ==> a.x == b.x)
            && (s.y < t.y ==> a.y > b.y) && (s.z < t.z ==> a.z < b.z)
  {
    hide ToPixel, InPixels;
    PixelParts(fit, s);
    PixelParts(fit, t);
    LaterInPixels(s.x, t.x, fit.centreX, fit.scale);
    LaterInPixels(s.y, t.y, fit.centreY, fit.scale);
    LaterInPixels(s.z, t.z, fit.minDepth, fit.scale);
  }

  /** World Z is up: a point above another is drawn above it, and seen from above it is nearer. */
  lemma UpIsUp(fit: Fit, p: Vec, h: real)
    requires fit.scale > 0.0 && h > 0.0
    ensures var a, b := ToPixel(fit, Project(p)), ToPixel(fit, Project(Vec(p.x, p.y, p.z + h)));
            b.x == a.x && b.y < a.y && b.z > a.z
  {
    hide Dot, ToPixel;
    var d := Vec(0.0, 0.0, h);
    var q := Vec(p.x + d.x, p.y + d.y, p.z + d.z);
    assert q == Vec(p.x, p.y, p.z + h);
    Along(p, d, RIGHT);
    Along(p, d, UP);
    Along(p, d, VIEW);
    Vertical(h);
    FitKeepsOrder(fit, Project(p), Project(q));
  }

  lemma Vertical(h: real)
    requires h > 0.0
    ensures var d := Vec(0.0, 0.0, h); Dot(d, RIGHT) == 0.0 && Dot(d, UP) > 0.0 && Dot(d, VIEW) > 0.0
  {
  }

  /** World X is to the right, and what is in front of the model, towards negative Y, is nearer. */
  lemma RightIsRight(fit: Fit, p: Vec, h: real)
    requires fit.scale > 0.0 && h > 0.0
    ensures ToPixel(fit, Project(Vec(p.x + h, p.y, p.z))).x > ToPixel(fit, Project(p)).x
    ensures ToPixel(fit, Project(Vec(p.x, p.y - h, p.z))).z > ToPixel(fit, Project(p)).z
  {
    hide Dot, ToPixel;
    var d, e := Vec(h, 0.0, 0.0), Vec(0.0, -h, 0.0);
    var q, r := Vec(p.x + d.x, p.y + d.y, p.z + d.z), Vec(p.x + e.x, p.y + e.y, p.z + e.z);
    assert q == Vec(p.x + h, p.y, p.z) && r == Vec(p.x, p.y - h, p.z);
    Along(p, d, RIGHT);
    Along(p, e, VIEW);
    Horizontal(h);
    FitKeepsOrder(fit, Project(p), Project(q));
    FitKeepsOrder(fit, Project(p), Project(r));
  }

  lemma Horizontal(h: real)
    requires h > 0.0
    ensures Dot(Vec(h, 0.0, 0.0), RIGHT) > 0.0 && Dot(Vec(0.0, -h, 0.0), VIEW) > 0.0
  {
  }

  // ---- The light ------------------------------------------------------------------------------

  /** Where the light comes from: above, and the viewer's front left. */
  const LAMP := Vec(-0.3, -0.55, 0.78)

  lemma Lagrange(n: Vec, l: Vec)
    ensures Dot(n, n) * Dot(l, l) - Dot(n, l) * Dot(n, l) == Dot(Cross(n, l), Cross(n, l))
  {
  }

  lemma SquaresNotNegative(v: Vec)
    ensures Dot(v, v) >= 0.0
  {
    hide Dot, Product;
    DotOfSelf(v);
    SquareSign(v.x);
    SquareSign(v.y);
    SquareSign(v.z);
  }

  lemma CauchySchwarz(n: Vec, l: Vec)
    ensures Dot(n, l) * Dot(n, l) <= Dot(n, n) * Dot(l, l)
  {
    hide Dot, Cross;
    Lagrange(n, l);
    SquaresNotNegative(Cross(n, l));
  }

  lemma Share(a: real, b: Positive)
    ensures a / b * b == a
  {
  }

  lemma Rescaled(v: real, a: real, r: Positive)
    ensures v * (a / r) * r == v * a
  {
    Share(a, r);
    assert v * (a / r) * r == v * (a / r * r);
  }

  lemma LightTimesLength(optics: Optics, n: Vec)
    ensures Dot(n, Light(optics)) * optics.root(Dot(LAMP, LAMP)) == Dot(n, LAMP)
  {
    var r := optics.root(Dot(LAMP, LAMP));
    assert Dot(LAMP, LAMP) == 0.3 * 0.3 + 0.55 * 0.55 + 0.78 * 0.78;
    Rescaled(n.x, -0.3, r);
    Rescaled(n.y, -0.55, r);
    Rescaled(n.z, 0.78, r);
  }

  lemma SquareOfProduct(a: real, b: real, c: real, d: real)
    requires a * b * c == d
    ensures (a * a) * ((b * b) * (c * c)) == d * d
  {
    assert (a * a) * ((b * b) * (c * c)) == (a * b * c) * (a * b * c);
  }

  lemma MoreThanOne(c: real, m: real)
    requires c > 1.0 && m > 0.0
    ensures (c * c) * m > m
  {
    ProductPositive(c - 1.0, c);
    ProductPositive(c * c - 1.0, m);
  }

  lemma AtMostOne(c: real, m: real, d: real)
    requires c >= 0.0 && m > 0.0 && (c * c) * m == d <= m
    ensures c <= 1.0
  {
    if c > 1.0 {
      MoreThanOne(c, m);
    }
  }

  /**
   Flat shading after Lambert: with `c` the cosine between face and light, whichever side is lit, a
   face shows the base colour at 28 percent and the other 72 in proportion.
   */
  lemma FaceIsLambert(optics: Optics, n: Vec) returns (c: real)
    requires Dot(n, n) > 0.0 && (forall a :: a > 0.0 ==> optics.root(a) * optics.root(a) == a)
    ensures 0.0 <= c <= 1.0 && (c * c) * (Dot(n, n) * Dot(LAMP, LAMP)) == Dot(n, LAMP) * Dot(n, LAMP)
    ensures var shade := 0.28 + 0.72 * c;
            Face(optics, n) == Rgb(optics.round(224.0 * shade), optics.round(138.0 * shade), optics.round(60.0 * shade))
  {
    hide Dot, Light;
    var r1, r2 := optics.root(Dot(LAMP, LAMP)), optics.root(Dot(n, n));
    var y := Dot(n, Light(optics)) / r2;
    assert Dot(LAMP, LAMP) > 0.0 by { LampIsLit(); }
    Share(Dot(n, Light(optics)), r2);
    LightTimesLength(optics, n);
    SquareOfProduct(y, r2, r1, Dot(n, LAMP));
    CauchySchwarz(n, LAMP);
    ProductPositive(Dot(n, n), Dot(LAMP, LAMP));
    c := if y < 0.0 then -y else y;
    assert c * c == y * y;
    assert r1 * r1 == Dot(LAMP, LAMP) && r2 * r2 == Dot(n, n);
    assert (c * c) * (Dot(n, n) * Dot(LAMP, LAMP)) == Dot(n, LAMP) * Dot(n, LAMP);
    AtMostOne(c, Dot(n, n) * Dot(LAMP, LAMP), Dot(n, LAMP) * Dot(n, LAMP));
  }

  lemma LampIsLit()
    ensures Dot(LAMP, LAMP) > 0.0
  {
  }
}
