/** The preview rasterizer (previews/raster.rs) over exact real numbers. */
module Geometry {
  datatype Vec = Vec(x: real, y: real, z: real)

  function Minus(a: Vec, b: Vec): Vec {
    Vec(a.x - b.x, a.y - b.y, a.z - b.z)
  }

  function Dot(a: Vec, b: Vec): real {
    a.x * b.x + a.y * b.y + a.z * b.z
  }

  function Cross(a: Vec, b: Vec): Vec {
    Vec(a.y * b.z - a.z * b.y, a.z * b.x - a.x * b.z, a.x * b.y - a.y * b.x)
  }

  function Opposite(a: Vec): Vec {
    Vec(-a.x, -a.y, -a.z)
  }

  /** Twice the signed area of a triangle in the plane. */
  function Area(a: Vec, b: Vec, c: Vec): real {
    (b.x - a.x) * (c.y - a.y) - (b.y - a.y) * (c.x - a.x)
  }

  /** Twice the signed area of the triangle an edge makes with a sample point. */
  function Edge(p: Vec, q: Vec, sx: real, sy: real): real {
    (p.x - sx) * (q.y - sy) - (p.y - sy) * (q.x - sx)
  }

  lemma EdgesMakeTheArea(a: Vec, b: Vec, c: Vec, sx: real, sy: real)
    ensures Edge(b, c, sx, sy) + Edge(c, a, sx, sy) + Edge(a, b, sx, sy) == Area(a, b, c)
  {
  }

  lemma EdgesWeighX(a: Vec, b: Vec, c: Vec, sx: real, sy: real)
    ensures Edge(b, c, sx, sy) * a.x + Edge(c, a, sx, sy) * b.x + Edge(a, b, sx, sy) * c.x == Area(a, b, c) * sx
  {
  }

  lemma EdgesWeighY(a: Vec, b: Vec, c: Vec, sx: real, sy: real)
    ensures Edge(b, c, sx, sy) * a.y + Edge(c, a, sx, sy) * b.y + Edge(a, b, sx, sy) * c.y == Area(a, b, c) * sy
  {
  }

  function Min(a: real, b: real): real { if a <= b then a else b }

  function Max(a: real, b: real): real { if a >= b then a else b }

  function Min3(a: real, b: real, c: real): real { Min(Min(a, b), c) }

  function Max3(a: real, b: real, c: real): real { Max(Max(a, b), c) }

  lemma ProductNotNegative(a: real, b: real)
    requires a >= 0.0 && b >= 0.0
    ensures a * b >= 0.0
  {
  }

  lemma Distributes(w: real, p: real, q: real)
    ensures w * (p - q) == w * p - w * q
  {
  }

  lemma Grows(w: real, p: real, q: real)
    requires w >= 0.0 && p <= q
    ensures w * p <= w * q
  {
    ProductNotNegative(w, q - p);
    Distributes(w, q, p);
  }

  lemma MeanIsAbove(u: real, v: real, w: real, p: real, q: real, r: real, lo: real)
    requires u >= 0.0 && v >= 0.0 && w >= 0.0
    requires lo <= p && lo <= q && lo <= r
    ensures (u + v + w) * lo <= u * p + v * q + w * r
  {
    Grows(u, lo, p);
    Grows(v, lo, q);
    Grows(w, lo, r);
    assert (u + v + w) * lo == u * lo + v * lo + w * lo;
  }

  lemma Unit(t: real, lo: real)
    requires t == 1.0
    ensures t * lo == lo
  {
  }

  /** A weighted mean lies between the least and the greatest of what it weighs. */
  lemma MeanIsBetween(u: real, v: real, w: real, p: real, q: real, r: real)
    requires u >= 0.0 && v >= 0.0 && w >= 0.0 && u + v + w == 1.0
    ensures Min3(p, q, r) <= u * p + v * q + w * r <= Max3(p, q, r)
  {
    MeanIsAbove(u, v, w, p, q, r, Min3(p, q, r));
    MeanIsAbove(u, v, w, -p, -q, -r, -Max3(p, q, r));
    Unit(u + v + w, Min3(p, q, r));
    Unit(u + v + w, -Max3(p, q, r));
  }

  lemma Reciprocal(a: real)
    requires a != 0.0
    ensures a * (1.0 / a) == 1.0
  {
  }

  lemma CrossReversed(a: Vec, b: Vec)
    ensures Cross(b, a) == Opposite(Cross(a, b))
  {
  }

  lemma AreaReversed(a: Vec, b: Vec, c: Vec)
    ensures Area(a, c, b) == -Area(a, b, c)
  {
  }

  lemma EdgeReversed(p: Vec, q: Vec, sx: real, sy: real)
    ensures Edge(q, p, sx, sy) == -Edge(p, q, sx, sy)
  {
  }

  lemma DotOpposite(a: Vec, l: Vec)
    ensures Dot(Opposite(a), l) == -Dot(a, l) && Dot(Opposite(a), Opposite(a)) == Dot(a, a)
  {
  }

  function Ceil(r: real): int { -((-r).Floor) }

  lemma CeilBounds(r: real)
    ensures r <= Ceil(r) as real < r + 1.0
  {
  }

  lemma FloorBounds(r: real)
    ensures r - 1.0 < r.Floor as real <= r
  {
  }
}

module Raster {
  import opened Words
  import opened Wrappers
  import opened Geometry

  type Positive = r: real | 0.0 < r witness 1.0
  datatype Rgb = Rgb(r: byte, g: byte, b: byte)

  /** Square root and rounding to a colour byte: what the exact numbers leave open. */
  datatype Optics = Optics(root: real -> Positive, round: real -> byte)

  const MAX_SIZE := 4096
  const MARGIN_FRACTION := 0.06
  const AMBIENT := 0.28
  const BACKGROUND := Rgb(31, 35, 42)

  const RIGHT := Vec(0.8480480961564261, 0.5299192642332049, 0.0)
  const UP := Vec(-0.3059490298538092, 0.4896207966016621, 0.8164965809277261)
  const VIEW := Vec(0.4326772674141481, -0.6924283709739895, 0.5773502691896256)

  // ---- One triangle ---------------------------------------------------------------------------

  datatype Prepared = Prepared(normal: Vec, s0: Vec, s1: Vec, s2: Vec, area: real)

  /** Screen x, screen y and depth. */
  function Project(p: Vec): Vec {
    Vec(Dot(p, RIGHT), Dot(p, UP), Dot(p, VIEW))
  }

  function FaceNormal(a: Vec, b: Vec, c: Vec): Vec {
    Cross(Minus(b, a), Minus(c, a))
  }

  predicate IsDrawable(p: Prepared) {
    Dot(p.normal, p.normal) != 0.0 && p.area != 0.0
  }

  function Projected(a: Vec, b: Vec, c: Vec): Prepared {
    var s0, s1, s2 := Project(a), Project(b), Project(c);
    Prepared(FaceNormal(a, b, c), s0, s1, s2, Area(s0, s1, s2))
  }

  function Corner(positions: seq<real>, k: nat): Vec
    requires k + 3 <= |positions|
  {
    Vec(positions[k], positions[k + 1], positions[k + 2])
  }

  function PrepareTriangle(positions: seq<real>, offset: nat): Option<Prepared>
    requires offset + 9 <= |positions|
  {
    var p := Projected(Corner(positions, offset), Corner(positions, offset + 3), Corner(positions, offset + 6));
    if IsDrawable(p) then Some(p) else None
  }

  /** The drawable triangles among the first `n`, in order. */
  function Scene(positions: seq<real>, n: nat): seq<Prepared>
    requires 9 * n <= |positions|
  {
    if n == 0 then []
    else
      var p := PrepareTriangle(positions, 9 * (n - 1));
      Scene(positions, n - 1) + if p.Some? then [p.value] else []
  }

  // ---- Shading --------------------------------------------------------------------------------

  function Light(optics: Optics): Vec {
    var length := optics.root(0.3 * 0.3 + 0.55 * 0.55 + 0.78 * 0.78);
    Vec(-0.3 / length, -0.55 / length, 0.78 / length)
  }

  function Clamped(x: real): real {
    var m := if x < 0.0 then -x else x;
    if m > 1.0 then 1.0 else m
  }

  function Face(optics: Optics, normal: Vec): Rgb {
    var lambert := Clamped(Dot(normal, Light(optics)) / optics.root(Dot(normal, normal)));
    var shade := AMBIENT + (1.0 - AMBIENT) * lambert;
    Rgb(optics.round(224.0 * shade), optics.round(138.0 * shade), optics.round(60.0 * shade))
  }

  lemma NegatedQuotient(a: real, b: Positive)
    ensures (-a) / b == -(a / b)
  {
  }

  /** A face is lit from both sides. */
  lemma FaceIgnoresWinding(optics: Optics, normal: Vec)
    ensures Face(optics, Opposite(normal)) == Face(optics, normal)
  {
    hide Light, Dot;
    DotOpposite(normal, Light(optics));
    NegatedQuotient(Dot(normal, Light(optics)), optics.root(Dot(normal, normal)));
  }

  // ---- The fit --------------------------------------------------------------------------------

  datatype Bounds = Bounds(minX: real, maxX: real, minY: real, maxY: real, minDepth: real)

  function Grown(b: Option<Bounds>, v: Vec): Option<Bounds> {
    if b.None? then Some(Bounds(v.x, v.x, v.y, v.y, v.z))
    else
      var o := b.value;
      Some(Bounds(Min(o.minX, v.x), Max(o.maxX, v.x), Min(o.minY, v.y), Max(o.maxY, v.y), Min(o.minDepth, v.z)))
  }

  function GrownBy(b: Option<Bounds>, p: Prepared): (r: Option<Bounds>)
    ensures r.Some?
  {
    Grown(Grown(Grown(b, p.s0), p.s1), p.s2)
  }

  function BoundsOf(scene: seq<Prepared>): (b: Option<Bounds>)
    ensures b.Some? <==> scene != []
  {
    if scene == [] then None else GrownBy(BoundsOf(scene[..|scene| - 1]), scene[|scene| - 1])
  }

  predicate Inside(b: Bounds, v: Vec) {
    b.minX <= v.x <= b.maxX && b.minY <= v.y <= b.maxY && b.minDepth <= v.z
  }

  predicate HoldsTriangle(b: Bounds, p: Prepared) {
    Inside(b, p.s0) && Inside(b, p.s1) && Inside(b, p.s2)
  }

  lemma GrownHolds(b: Option<Bounds>, v: Vec, w: Vec)
    requires w == v || (b.Some? && Inside(b.value, w))
    ensures Grown(b, v).Some? && Inside(Grown(b, v).value, w)
  {
  }

  lemma GrownByHolds(b: Option<Bounds>, p: Prepared, w: Vec)
    requires w == p.s0 || w == p.s1 || w == p.s2 || (b.Some? && Inside(b.value, w))
    ensures Inside(GrownBy(b, p).value, w)
  {
    hide Grown, Inside;
    if w != p.s1 && w != p.s2 {
      GrownHolds(b, p.s0, w);
    }
    if w != p.s2 {
      GrownHolds(Grown(b, p.s0), p.s1, w);
    }
    GrownHolds(Grown(Grown(b, p.s0), p.s1), p.s2, w);
  }

  lemma {:induction false} BoundsHold(scene: seq<Prepared>)
    ensures forall k :: 0 <= k < |scene| ==> HoldsTriangle(BoundsOf(scene).value, scene[k])
  {
    hide GrownBy, Inside;
    if scene != [] {
      var init, last := scene[..|scene| - 1], scene[|scene| - 1];
      BoundsHold(init);
      forall k | 0 <= k < |scene| ensures HoldsTriangle(BoundsOf(scene).value, scene[k]) {
        var p := scene[k];
        assert k < |init| ==> p == init[k];
        GrownByHolds(BoundsOf(init), last, p.s0);
        GrownByHolds(BoundsOf(init), last, p.s1);
        GrownByHolds(BoundsOf(init), last, p.s2);
      }
    }
  }

  function Extent(b: Bounds): real {
    Max(b.maxX - b.minX, b.maxY - b.minY)
  }

  lemma FlatHasNoArea(a: Vec, b: Vec, c: Vec)
    requires a.x == b.x == c.x || a.y == b.y == c.y
    ensures Area(a, b, c) == 0.0
  {
  }

  /** The zero-extent error is never raised: what can be drawn has an extent on both axes. */
  lemma DrawableHasExtent(b: Bounds, p: Prepared)
    requires HoldsTriangle(b, p) && p.area == Area(p.s0, p.s1, p.s2) && p.area != 0.0
    ensures b.minX < b.maxX && b.minY < b.maxY && Extent(b) > 0.0
  {
    hide Area;
    if b.minX >= b.maxX || b.minY >= b.maxY {
      FlatHasNoArea(p.s0, p.s1, p.s2);
    }
  }

  datatype Fit = Fit(scale: real, centreX: real, centreY: real, half: real, minDepth: real)

  function FitOf(b: Bounds, size: nat): Fit
    requires Extent(b) > 0.0
  {
    Fit(
      size as real * (1.0 - 2.0 * MARGIN_FRACTION) / Extent(b),
      (b.minX + b.maxX) / 2.0,
      (b.minY + b.maxY) / 2.0,
      size as real / 2.0,
      b.minDepth)
  }

  function ToPixel(fit: Fit, s: Vec): Vec {
    Vec((s.x - fit.centreX) * fit.scale + fit.half, fit.half - (s.y - fit.centreY) * fit.scale, (s.z - fit.minDepth) * fit.scale)
  }

  lemma ScaledExtent(size: real, extent: real)
    requires extent > 0.0
    ensures size * (1.0 - 2.0 * MARGIN_FRACTION) / extent * extent == size * 0.88
  {
  }

  lemma AxisFits(v: real, lo: real, hi: real, extent: real, scale: real, size: real)
    requires lo <= v <= hi && hi - lo <= extent && scale > 0.0 && scale * extent == size * 0.88
    ensures -0.44 * size <= (v - (lo + hi) / 2.0) * scale <= 0.44 * size
  {
    var d := v - (lo + hi) / 2.0;
    Grows(scale, d, extent / 2.0);
    Grows(scale, -extent / 2.0, d);
    assert scale * (extent / 2.0) == size * 0.44;
    assert scale * (-extent / 2.0) == -(size * 0.44);
  }

  lemma PositiveQuotient(a: real, b: real)
    requires a > 0.0 && b > 0.0
    ensures a / b > 0.0
  {
  }

  predicate InFrame(v: Vec, size: nat) {
    0.06 * size as real <= v.x <= 0.94 * size as real && 0.06 * size as real <= v.y <= 0.94 * size as real
  }

  /** Every drawn vertex lands inside the margin. */
  lemma FitsInFrame(b: Bounds, v: Vec, size: nat)
    requires Inside(b, v) && Extent(b) > 0.0 && size > 0
    ensures FitOf(b, size).scale > 0.0 && InFrame(ToPixel(FitOf(b, size), v), size)
  {
    var fit := FitOf(b, size);
    PositiveQuotient(size as real * (1.0 - 2.0 * MARGIN_FRACTION), Extent(b));
    ScaledExtent(size as real, Extent(b));
    AxisFits(v.x, b.minX, b.maxX, Extent(b), fit.scale, size as real);
    AxisFits(v.y, b.minY, b.maxY, Extent(b), fit.scale, size as real);
  }

  // ---- Coverage -------------------------------------------------------------------------------

  /** A triangle in pixel space, with one over its signed area. */
  datatype Tri = Tri(p0: Vec, p1: Vec, p2: Vec, inverse: real, face: Rgb)

  /** The signed area in pixels, derived from the screen's: scaled twice, flipped once. */
  function AreaInPixels(area: real, scale: real): real {
    -area * scale * scale
  }

  lemma ProductNotZero(a: real, b: real)
    requires a != 0.0 && b != 0.0
    ensures a * b != 0.0
  {
  }

  lemma AreaSurvives(area: real, scale: real)
    requires area != 0.0 && scale > 0.0
    ensures AreaInPixels(area, scale) != 0.0
  {
    var once := -area * scale;
    ProductNotZero(-area, scale);
    ProductNotZero(once, scale);
  }

  function TriOf(optics: Optics, fit: Fit, p: Prepared): Tri
    requires p.area != 0.0 && fit.scale > 0.0
  {
    AreaSurvives(p.area, fit.scale);
    Tri(ToPixel(fit, p.s0), ToPixel(fit, p.s1), ToPixel(fit, p.s2), 1.0 / AreaInPixels(p.area, fit.scale), Face(optics, p.normal))
  }

  lemma PixelDifference(v: real, w: real, centre: real, k: real, half: real)
    ensures ((v - centre) * k + half) - ((w - centre) * k + half) == (v - w) * k
  {
  }

  lemma FlippedDifference(v: real, w: real, centre: real, k: real, half: real)
    ensures (half - (v - centre) * k) - (half - (w - centre) * k) == -(v - w) * k
  {
  }

  function Determinant(qx: real, ry: real, qy: real, rx: real): real {
    qx * ry - qy * rx
  }

  lemma ScaledDeterminant(p: real, q: real, r: real, s: real, k: real)
    ensures Determinant(p * k, -q * k, -r * k, s * k) == AreaInPixels(Determinant(p, q, r, s), k)
  {
  }

  lemma AreaIsDeterminant(a: Vec, b: Vec, c: Vec)
    ensures Area(a, b, c) == Determinant(b.x - a.x, c.y - a.y, b.y - a.y, c.x - a.x)
  {
  }

  lemma ScaledSides(p: Vec, q: Vec, r: Vec, qx: real, ry: real, qy: real, rx: real, k: real)
    requires q.x - p.x == qx * k && r.y - p.y == -ry * k && q.y - p.y == -qy * k && r.x - p.x == rx * k
    ensures Area(p, q, r) == AreaInPixels(Determinant(qx, ry, qy, rx), k)
  {
    hide Determinant, AreaInPixels, Area;
    AreaIsDeterminant(p, q, r);
    assert Determinant(q.x - p.x, r.y - p.y, q.y - p.y, r.x - p.x) == Determinant(qx * k, -ry * k, -qy * k, rx * k);
    ScaledDeterminant(qx, ry, qy, rx, k);
  }

  /** The area the code derives from the screen is the pixel triangle's own. */
  lemma PixelArea(fit: Fit, a: Vec, b: Vec, c: Vec)
    ensures Area(ToPixel(fit, a), ToPixel(fit, b), ToPixel(fit, c)) == AreaInPixels(Area(a, b, c), fit.scale)
  {
    hide Determinant, AreaInPixels, Area;
    var p, q, r, k := ToPixel(fit, a), ToPixel(fit, b), ToPixel(fit, c), fit.scale;
    AreaIsDeterminant(a, b, c);
    PixelDifference(b.x, a.x, fit.centreX, k, fit.half);
    PixelDifference(c.x, a.x, fit.centreX, k, fit.half);
    FlippedDifference(b.y, a.y, fit.centreY, k, fit.half);
    FlippedDifference(c.y, a.y, fit.centreY, k, fit.half);
    ScaledSides(p, q, r, b.x - a.x, c.y - a.y, b.y - a.y, c.x - a.x, k);
  }

  ghost predicate Normalised(t: Tri) {
    Area(t.p0, t.p1, t.p2) * t.inverse == 1.0
  }

  lemma TriIsNormalised(optics: Optics, fit: Fit, p: Prepared)
    requires p.area == Area(p.s0, p.s1, p.s2) && p.area != 0.0 && fit.scale > 0.0
    ensures Normalised(TriOf(optics, fit, p))
  {
    hide Area, ToPixel, Face, AreaInPixels;
    PixelArea(fit, p.s0, p.s1, p.s2);
    AreaSurvives(p.area, fit.scale);
    Reciprocal(AreaInPixels(p.area, fit.scale));
  }

  function Weight0(t: Tri, sx: real, sy: real): real { Edge(t.p1, t.p2, sx, sy) * t.inverse }

  function Weight1(t: Tri, sx: real, sy: real): real { Edge(t.p2, t.p0, sx, sy) * t.inverse }

  function Weight2(t: Tri, sx: real, sy: real): real { Edge(t.p0, t.p1, sx, sy) * t.inverse }

  /** The depth at a sample the triangle covers. */
  function Coverage(t: Tri, sx: real, sy: real): Option<real> {
    var w0, w1, w2 := Weight0(t, sx, sy), Weight1(t, sx, sy), Weight2(t, sx, sy);
    if w0 < 0.0 || w1 < 0.0 || w2 < 0.0 then None else Some(DepthAt(t, w0, w1, w2))
  }

  /** Depth is affine over the triangle. */
  function DepthAt(t: Tri, w0: real, w1: real, w2: real): real {
    w0 * t.p0.z + w1 * t.p1.z + w2 * t.p2.z
  }

  lemma Weighed(e0: real, e1: real, e2: real, area: real, inverse: real, p: real, q: real, r: real, s: real)
    requires area * inverse == 1.0 && e0 * p + e1 * q + e2 * r == area * s
    ensures e0 * inverse * p + e1 * inverse * q + e2 * inverse * r == s
  {
    assert e0 * inverse * p + e1 * inverse * q + e2 * inverse * r == (e0 * p + e1 * q + e2 * r) * inverse;
    assert (area * s) * inverse == (area * inverse) * s;
  }

  /** A sample is the weighted mean of the corners, so a covered one lies in their bounding box. */
  lemma CoveredIsInBox(t: Tri, sx: real, sy: real)
    requires Normalised(t) && Coverage(t, sx, sy).Some?
    ensures Min3(t.p0.x, t.p1.x, t.p2.x) <= sx <= Max3(t.p0.x, t.p1.x, t.p2.x)
    ensures Min3(t.p0.y, t.p1.y, t.p2.y) <= sy <= Max3(t.p0.y, t.p1.y, t.p2.y)
  {
    hide Edge, Area, Min3, Max3;
    var e0, e1, e2 := Edge(t.p1, t.p2, sx, sy), Edge(t.p2, t.p0, sx, sy), Edge(t.p0, t.p1, sx, sy);
    var area := Area(t.p0, t.p1, t.p2);
    EdgesMakeTheArea(t.p0, t.p1, t.p2, sx, sy);
    EdgesWeighX(t.p0, t.p1, t.p2, sx, sy);
    EdgesWeighY(t.p0, t.p1, t.p2, sx, sy);
    Weighed(e0, e1, e2, area, t.inverse, 1.0, 1.0, 1.0, 1.0);
    Weighed(e0, e1, e2, area, t.inverse, t.p0.x, t.p1.x, t.p2.x, sx);
    Weighed(e0, e1, e2, area, t.inverse, t.p0.y, t.p1.y, t.p2.y, sy);
    MeanIsBetween(e0 * t.inverse, e1 * t.inverse, e2 * t.inverse, t.p0.x, t.p1.x, t.p2.x);
    MeanIsBetween(e0 * t.inverse, e1 * t.inverse, e2 * t.inverse, t.p0.y, t.p1.y, t.p2.y);
  }

  /** The sample of pixel `n` on one axis. */
  function Sample(n: int): real { n as real + 0.5 }

  datatype Box = Box(x0: int, x1: int, y0: int, y1: int)

  function Clamp(lo: real, hi: real, size: nat): (r: (int, int)) {
    (if lo.Floor < 0 then 0 else lo.Floor, if Ceil(hi) > size - 1 then size - 1 else Ceil(hi))
  }

  /** The pixels the fill visits for a triangle. */
  function BoxOf(t: Tri, size: nat): Box {
    var x := Clamp(Min3(t.p0.x, t.p1.x, t.p2.x), Max3(t.p0.x, t.p1.x, t.p2.x), size);
    var y := Clamp(Min3(t.p0.y, t.p1.y, t.p2.y), Max3(t.p0.y, t.p1.y, t.p2.y), size);
    Box(x.0, x.1, y.0, y.1)
  }

  predicate InBox(b: Box, x: int, y: int) {
    b.x0 <= x <= b.x1 && b.y0 <= y <= b.y1
  }

  predicate TriInFrame(t: Tri, size: nat) {
    InFrame(t.p0, size) && InFrame(t.p1, size) && InFrame(t.p2, size)
  }

  lemma ClampKeeps(lo: real, hi: real, size: nat, n: int)
    requires 0.06 * size as real <= lo && hi <= 0.94 * size as real && lo <= Sample(n) <= hi && size > 0
    ensures Clamp(lo, hi, size).0 <= n <= Clamp(lo, hi, size).1 && 0 <= n < size
  {
    CeilBounds(hi);
    FloorBounds(lo);
  }

  /** Box and clamps lose nothing: a covered sample, of any pixel at all, is visited and on the canvas. */
  lemma BoxHoldsWhatIsCovered(t: Tri, size: nat, x: int, y: int)
    requires Normalised(t) && TriInFrame(t, size) && size > 0 && Coverage(t, Sample(x), Sample(y)).Some?
    ensures InBox(BoxOf(t, size), x, y) && 0 <= x < size && 0 <= y < size
  {
    hide Coverage, Normalised, Clamp, Sample;
    CoveredIsInBox(t, Sample(x), Sample(y));
    ClampKeeps(Min3(t.p0.x, t.p1.x, t.p2.x), Max3(t.p0.x, t.p1.x, t.p2.x), size, x);
    ClampKeeps(Min3(t.p0.y, t.p1.y, t.p2.y), Max3(t.p0.y, t.p1.y, t.p2.y), size, y);
  }

  /**
   When a clamp changes anything: never from below, and from above exactly for a triangle that
   reaches into the last pixel's column or row, which the margin rules out from 17 pixels on.
   */
  lemma ClampsFire(lo: real, hi: real, size: nat)
    requires 0.06 * size as real <= lo <= hi <= 0.94 * size as real
    ensures Clamp(lo, hi, size).0 == lo.Floor
    ensures Clamp(lo, hi, size).1 != Ceil(hi) <==> hi > (size - 1) as real
    ensures size >= 17 ==> Clamp(lo, hi, size).1 == Ceil(hi)
    ensures 0 < size <= 16 && hi == 0.94 * size as real ==> Clamp(lo, hi, size).1 < Ceil(hi)
  {
    CeilBounds(hi);
    FloorBounds(lo);
  }

  // ---- The nearest triangle -------------------------------------------------------------------

  /** The depth buffer's entry and the face that goes with it; `index` counts drawable triangles. */
  datatype Hit = Hit(depth: real, face: Rgb, index: nat)

  /** One depth test: a tie keeps what is there. */
  function Tested(best: Option<Hit>, t: Tri, index: nat, x: int, y: int): Option<Hit> {
    var depth := Coverage(t, Sample(x), Sample(y));
    if depth.None? || (best.Some? && depth.value <= best.value.depth) then best else Some(Hit(depth.value, t.face, index))
  }

  function Best(tris: seq<Tri>, x: int, y: int): Option<Hit> {
    if tris == [] then None else Tested(Best(tris[..|tris| - 1], x, y), tris[|tris| - 1], |tris| - 1, x, y)
  }

  predicate CoversAt(t: Tri, x: int, y: int) {
    Coverage(t, Sample(x), Sample(y)).Some?
  }

  /** What the depth buffer ends with: the nearest covering triangle, the earliest of equals. */
  ghost predicate IsNearest(tris: seq<Tri>, hit: Hit, x: int, y: int) {
    && hit.index < |tris| && hit.face == tris[hit.index].face
    && Coverage(tris[hit.index], Sample(x), Sample(y)) == Some(hit.depth)
    && forall k :: 0 <= k < |tris| && CoversAt(tris[k], x, y) ==>
         var depth := Coverage(tris[k], Sample(x), Sample(y)).value;
         depth <= hit.depth && (k < hit.index ==> depth < hit.depth)
  }

  lemma {:induction false} BestIsNearest(tris: seq<Tri>, x: int, y: int)
    ensures Best(tris, x, y).Some? ==> IsNearest(tris, Best(tris, x, y).value, x, y)
    ensures Best(tris, x, y).None? <==> forall k :: 0 <= k < |tris| ==> !CoversAt(tris[k], x, y)
  {
    hide Coverage, Sample;
    if tris != [] {
      var init, last := tris[..|tris| - 1], tris[|tris| - 1];
      BestIsNearest(init, x, y);
      assert forall k :: 0 <= k < |init| ==> tris[k] == init[k];
      assert tris[|init|] == last;
    }
  }

  // ---- The picture ----------------------------------------------------------------------------

  datatype RenderError = BadSize | NoTriangles | LengthMismatch | NothingDrawable | ZeroExtent | NoPixels

  ghost predicate GoodScene(scene: seq<Prepared>) {
    forall k :: 0 <= k < |scene| ==> IsDrawable(scene[k]) && scene[k].area == Area(scene[k].s0, scene[k].s1, scene[k].s2)
  }

  lemma {:induction false} SceneIsGood(positions: seq<real>, n: nat)
    requires 9 * n <= |positions|
    ensures GoodScene(Scene(positions, n))
  {
    hide Area, IsDrawable, Project, FaceNormal;
    if n > 0 {
      SceneIsGood(positions, n - 1);
    }
  }

  lemma SceneHasExtent(scene: seq<Prepared>)
    requires GoodScene(scene) && scene != []
    ensures Extent(BoundsOf(scene).value) > 0.0
  {
    hide Extent;
    BoundsHold(scene);
    DrawableHasExtent(BoundsOf(scene).value, scene[0]);
  }

  predicate IsUsable(fit: Fit, scene: seq<Prepared>) {
    fit.scale > 0.0 && forall k :: 0 <= k < |scene| ==> scene[k].area != 0.0
  }

  function TrisOf(optics: Optics, fit: Fit, scene: seq<Prepared>): (t: seq<Tri>)
    requires IsUsable(fit, scene)
    ensures |t| == |scene|
  {
    if scene == [] then [] else TrisOf(optics, fit, scene[..|scene| - 1]) + [TriOf(optics, fit, scene[|scene| - 1])]
  }

  ghost predicate GoodTris(tris: seq<Tri>, size: nat) {
    forall k :: 0 <= k < |tris| ==> Normalised(tris[k]) && TriInFrame(tris[k], size)
  }

  lemma {:induction false} TrisAreGood(optics: Optics, b: Bounds, scene: seq<Prepared>, size: nat)
    requires GoodScene(scene) && Extent(b) > 0.0 && size > 0
    requires forall k :: 0 <= k < |scene| ==> HoldsTriangle(b, scene[k])
    ensures IsUsable(FitOf(b, size), scene) && GoodTris(TrisOf(optics, FitOf(b, size), scene), size)
  {
    hide FitOf, Extent, Inside, InFrame, Normalised, Area, Face;
    var fit := FitOf(b, size);
    assert fit.scale > 0.0 by { ScaleIsPositive(b, size); }
    if scene != [] {
      var init, last := scene[..|scene| - 1], scene[|scene| - 1];
      TrisAreGood(optics, b, init, size);
      FitsInFrame(b, last.s0, size);
      FitsInFrame(b, last.s1, size);
      FitsInFrame(b, last.s2, size);
      TriIsNormalised(optics, fit, last);
    }
  }

  lemma ScaleIsPositive(b: Bounds, size: nat)
    requires Extent(b) > 0.0 && size > 0
    ensures FitOf(b, size).scale > 0.0
  {
    PositiveQuotient(size as real * (1.0 - 2.0 * MARGIN_FRACTION), Extent(b));
  }

  /** The triangles as the fill sees them. */
  function PixelScene(optics: Optics, scene: seq<Prepared>, size: nat): seq<Tri>
    requires scene != [] && Extent(BoundsOf(scene).value) > 0.0 && IsUsable(FitOf(BoundsOf(scene).value, size), scene)
  {
    TrisOf(optics, FitOf(BoundsOf(scene).value, size), scene)
  }

  lemma SceneIsRenderable(optics: Optics, scene: seq<Prepared>, size: nat)
    requires GoodScene(scene) && scene != [] && size > 0
    ensures Extent(BoundsOf(scene).value) > 0.0 && IsUsable(FitOf(BoundsOf(scene).value, size), scene)
    ensures GoodTris(PixelScene(optics, scene, size), size)
  {
    hide Extent, FitOf, BoundsOf, GoodScene, GoodTris, IsUsable;
    SceneHasExtent(scene);
    BoundsHold(scene);
    TrisAreGood(optics, BoundsOf(scene).value, scene, size);
  }

  function ColourOf(best: Option<Hit>): Rgb {
    if best.Some? then best.value.face else BACKGROUND
  }

  ghost predicate PaintsNothing(tris: seq<Tri>) {
    forall k, x, y :: 0 <= k < |tris| ==> !CoversAt(tris[k], x, y)
  }

  /** Row-major pixels of a picture: at each, the face of the nearest triangle over its sample point. */
  ghost predicate IsPicture(rgb: seq<Rgb>, tris: seq<Tri>, size: nat) {
    |rgb| == size * size && size > 0
    && forall i :: 0 <= i < |rgb| ==> rgb[i] == ColourOf(Best(tris, i % size, i / size))
  }

  /** The buffers after some triangles. */
  ghost predicate Buffered(rgb: seq<Rgb>, depths: seq<Option<real>>, tris: seq<Tri>, size: nat) {
    && size > 0 && |rgb| == |depths| == size * size
    && forall i :: 0 <= i < |rgb| ==> PixelIs(rgb, depths, i, Best(tris, i % size, i / size))
  }

  predicate PixelIs(rgb: seq<Rgb>, depths: seq<Option<real>>, i: nat, best: Option<Hit>)
    requires i < |rgb| == |depths|
  {
    rgb[i] == ColourOf(best) && depths[i] == if best.Some? then Some(best.value.depth) else None
  }

  lemma Apart(p: int, q: int, size: nat)
    requires p > q
    ensures p * size >= q * size + size
  {
    assert (p - q - 1) * size >= 0;
    assert (p - q - 1) * size == p * size - q * size - size;
  }

  lemma SameQuotient(q: int, r: int, y: int, x: int, size: nat)
    requires q * size + r == y * size + x && 0 <= r < size && 0 <= x < size
    ensures q == y && r == x
  {
    if q > y {
      Apart(q, y, size);
    } else if q < y {
      Apart(y, q, size);
    }
  }

  lemma Divided(n: nat, size: nat)
    requires size > 0
    ensures n == n / size * size + n % size && 0 <= n % size < size
  {
  }

  lemma IndexOfPixel(x: int, y: int, size: nat)
    requires 0 <= x < size && 0 <= y < size
    ensures 0 <= y * size + x < size * size && (y * size + x) % size == x && (y * size + x) / size == y
  {
    Apart(size, y, size);
    var n: nat := y * size + x;
    Divided(n, size);
    SameQuotient(n / size, n % size, y, x, size);
  }

  lemma PixelOfIndex(i: nat, size: nat)
    requires i < size * size
    ensures 0 <= i % size < size && 0 <= i / size < size && i == i / size * size + i % size
  {
    Divided(i, size);
    if i / size >= size {
      Apart(i / size + 1, size, size);
    }
  }

  /** Which pixels the fill of one triangle has been through: whole rows, then part of a row. */
  predicate Visited(b: Box, x: int, y: int, atX: int, atY: int) {
    InBox(b, x, y) && (y < atY || (y == atY && x < atX))
  }

  ghost predicate Filling(
    rgb: seq<Rgb>, depths: seq<Option<real>>, tris: seq<Tri>, t: Tri, b: Box, size: nat, atX: int, atY: int)
  {
    && size > 0 && |rgb| == |depths| == size * size
    && forall i :: 0 <= i < |rgb| ==>
         PixelIs(rgb, depths, i,
           if Visited(b, i % size, i / size, atX, atY) then Tested(Best(tris, i % size, i / size), t, |tris|, i % size, i / size)
           else Best(tris, i % size, i / size))
  }

  predicate AnyPainted(depths: seq<Option<real>>) {
    exists i :: 0 <= i < |depths| && depths[i].Some?
  }

  lemma FillingStarts(rgb: seq<Rgb>, depths: seq<Option<real>>, tris: seq<Tri>, t: Tri, b: Box, size: nat)
    requires Buffered(rgb, depths, tris, size)
    ensures Filling(rgb, depths, tris, t, b, size, b.x0, b.y0)
  {
    hide Best, PixelIs, Tested;
  }

  lemma FillingEnds(rgb: seq<Rgb>, depths: seq<Option<real>>, tris: seq<Tri>, t: Tri, b: Box, size: nat, atX: int, atY: int)
    requires Filling(rgb, depths, tris, t, b, size, atX, atY) && b == BoxOf(t, size) && atY > b.y1
    requires Normalised(t) && TriInFrame(t, size)
    ensures Buffered(rgb, depths, tris + [t], size)
  {
    hide Coverage, BoxOf, Sample, Normalised, TriInFrame, PixelIs;
    forall i | 0 <= i < |rgb| ensures PixelIs(rgb, depths, i, Best(tris + [t], i % size, i / size)) {
      var x, y := i % size, i / size;
      assert (tris + [t])[..|tris|] == tris;
      assert Best(tris + [t], x, y) == Tested(Best(tris, x, y), t, |tris|, x, y);
      if Coverage(t, Sample(x), Sample(y)).Some? {
        BoxHoldsWhatIsCovered(t, size, x, y);
      }
    }
  }

  /** Moving on one pixel, after its test. */
  lemma FillingSteps(
    rgb: seq<Rgb>, depths: seq<Option<real>>, rgb2: seq<Rgb>, depths2: seq<Option<real>>,
    tris: seq<Tri>, t: Tri, b: Box, size: nat, x: int, y: int)
    requires Filling(rgb, depths, tris, t, b, size, x, y) && InBox(b, x, y) && 0 <= x < size && 0 <= y < size
    requires var i := y * size + x;
             && 0 <= i < |rgb| && |rgb2| == |depths2| == |rgb|
             && (forall j :: 0 <= j < |rgb| && j != i ==> rgb2[j] == rgb[j] && depths2[j] == depths[j])
             && PixelIs(rgb2, depths2, i, Tested(Best(tris, x, y), t, |tris|, x, y))
    ensures Filling(rgb2, depths2, tris, t, b, size, x + 1, y)
  {
    hide Best, Tested;
    IndexOfPixel(x, y, size);
    forall j | 0 <= j < |rgb2|
      ensures PixelIs(rgb2, depths2, j,
           if Visited(b, j % size, j / size, x + 1, y) then Tested(Best(tris, j % size, j / size), t, |tris|, j % size, j / size)
           else Best(tris, j % size, j / size))
    {
      PixelOfIndex(j, size);
      if j != y * size + x {
        assert !(j % size == x && j / size == y);
        assert PixelIs(rgb, depths, j,
           if Visited(b, j % size, j / size, x, y) then Tested(Best(tris, j % size, j / size), t, |tris|, j % size, j / size)
           else Best(tris, j % size, j / size));
      }
    }
  }

  lemma PixelBefore(rgb: seq<Rgb>, depths: seq<Option<real>>, tris: seq<Tri>, t: Tri, b: Box, size: nat, x: int, y: int)
    requires Filling(rgb, depths, tris, t, b, size, x, y) && 0 <= x < size && 0 <= y < size
    ensures |rgb| == |depths| && 0 <= y * size + x < |rgb| && PixelIs(rgb, depths, y * size + x, Best(tris, x, y))
  {
    hide Best, Tested, PixelIs;
    IndexOfPixel(x, y, size);
  }

  lemma RowEnds(rgb: seq<Rgb>, depths: seq<Option<real>>, tris: seq<Tri>, t: Tri, b: Box, size: nat, x: int, y: int)
    requires Filling(rgb, depths, tris, t, b, size, x, y) && x > b.x1
    ensures Filling(rgb, depths, tris, t, b, size, b.x0, y + 1)
  {
    hide Best, Tested, PixelIs;
    forall i | 0 <= i < |rgb|
      ensures Visited(b, i % size, i / size, x, y) == Visited(b, i % size, i / size, b.x0, y + 1)
    {
    }
  }

  /** One triangle into the buffers; how many pixels it wrote. */
  method FillTriangle(rgb: array<Rgb>, depths: array<Option<real>>, size: nat, t: Tri, ghost tris: seq<Tri>) returns (painted: nat)
    requires Buffered(rgb[..], depths[..], tris, size) && Normalised(t) && TriInFrame(t, size)
    modifies rgb, depths
    ensures Buffered(rgb[..], depths[..], tris + [t], size)
    ensures painted == 0 ==> depths[..] == old(depths[..])
    ensures painted > 0 ==> AnyPainted(depths[..])
    ensures old(AnyPainted(depths[..])) ==> AnyPainted(depths[..])
  {
    hide Buffered, Filling, Best, Normalised, TriInFrame, Weight0, Weight1, Weight2, BoxOf, AnyPainted, PixelIs, Tested;
    var b := BoxOf(t, size);
    BoxIsOnCanvas(t, size);
    FillingStarts(rgb[..], depths[..], tris, t, b, size);
    BufferSizes(rgb[..], depths[..], tris, size);
    painted := 0;
    var y := b.y0;
    while y <= b.y1
      invariant b.y0 <= y && rgb.Length == depths.Length == size * size
      invariant Filling(rgb[..], depths[..], tris, t, b, size, b.x0, y)
      invariant painted == 0 ==> depths[..] == old(depths[..])
      invariant painted > 0 ==> AnyPainted(depths[..])
      invariant old(AnyPainted(depths[..])) ==> AnyPainted(depths[..])
    {
      var x := b.x0;
      while x <= b.x1
        invariant b.x0 <= x && rgb.Length == depths.Length == size * size
        invariant Filling(rgb[..], depths[..], tris, t, b, size, x, y)
        invariant painted == 0 ==> depths[..] == old(depths[..])
        invariant painted > 0 ==> AnyPainted(depths[..])
        invariant old(AnyPainted(depths[..])) ==> AnyPainted(depths[..])
      {
        var wrote := TestPixel(rgb, depths, size, t, tris, b, x, y);
        if wrote {
          painted := painted + 1;
        }
        x := x + 1;
      }
      RowEnds(rgb[..], depths[..], tris, t, b, size, x, y);
      y := y + 1;
    }
    FillingEnds(rgb[..], depths[..], tris, t, b, size, b.x0, y);
  }

  lemma BufferSizes(rgb: seq<Rgb>, depths: seq<Option<real>>, tris: seq<Tri>, size: nat)
    requires Buffered(rgb, depths, tris, size)
    ensures |rgb| == |depths| == size * size && size > 0
  {
  }

  /** Whatever the triangle, the fill stays on the canvas. */
  lemma BoxIsOnCanvas(t: Tri, size: nat)
    ensures 0 <= BoxOf(t, size).x0 && BoxOf(t, size).x1 < size && 0 <= BoxOf(t, size).y0 && BoxOf(t, size).y1 < size
  {
    hide Min3, Max3, Ceil;
  }

  /** The coverage and depth tests of one pixel. */
  method TestPixel(
    rgb: array<Rgb>, depths: array<Option<real>>, size: nat, t: Tri, ghost tris: seq<Tri>, ghost b: Box, x: int, y: int)
    returns (wrote: bool)
    requires Filling(rgb[..], depths[..], tris, t, b, size, x, y) && InBox(b, x, y) && 0 <= x < size && 0 <= y < size
    modifies rgb, depths
    ensures Filling(rgb[..], depths[..], tris, t, b, size, x + 1, y)
    ensures !wrote ==> depths[..] == old(depths[..])
    ensures wrote ==> AnyPainted(depths[..])
    ensures old(AnyPainted(depths[..])) ==> AnyPainted(depths[..])
  {
    hide Filling, Best, Weight0, Weight1, Weight2, DepthAt, Sample, AnyPainted, InBox;
    ghost var before, beforeDepths := rgb[..], depths[..];
    PixelBefore(before, beforeDepths, tris, t, b, size, x, y);
    var w0, w1, w2 := Weight0(t, Sample(x), Sample(y)), Weight1(t, Sample(x), Sample(y)), Weight2(t, Sample(x), Sample(y));
    wrote := false;
    var i := y * size + x;
    ghost var best := Best(tris, x, y);
    ghost var tested := Tested(best, t, |tris|, x, y);
    assert rgb[i] == before[i] && depths[i] == beforeDepths[i];
    if w0 < 0.0 || w1 < 0.0 || w2 < 0.0 {
      assert tested == best;
    } else {
      var depth := DepthAt(t, w0, w1, w2);
      assert Coverage(t, Sample(x), Sample(y)) == Some(depth);
      if depths[i].Some? && depth <= depths[i].value {
        assert tested == best;
      } else {
        assert tested == Some(Hit(depth, t.face, |tris|));
        depths[i] := Some(depth);
        rgb[i] := t.face;
        wrote := true;
      }
    }
    assert PixelIs(rgb[..], depths[..], i, tested);
    PaintedStays(beforeDepths, depths[..], i, wrote);
    FillingSteps(before, beforeDepths, rgb[..], depths[..], tris, t, b, size, x, y);
  }

  lemma PaintedStays(before: seq<Option<real>>, after: seq<Option<real>>, i: nat, wrote: bool)
    requires |before| == |after| && i < |after| && (wrote ==> after[i].Some?) && (!wrote ==> after == before)
    requires forall j :: 0 <= j < |after| && j != i ==> after[j] == before[j]
    ensures wrote ==> AnyPainted(after)
    ensures AnyPainted(before) ==> AnyPainted(after)
  {
    if AnyPainted(before) {
      var j :| 0 <= j < |before| && before[j].Some?;
      if wrote {
        assert after[i].Some?;
      } else {
        assert after[j].Some?;
      }
    }
  }

  // ---- The whole renderer ---------------------------------------------------------------------

  /** What a render gives, pixel by pixel. */
  ghost predicate Renders(optics: Optics, positions: seq<real>, count: nat, size: nat, r: Result<seq<Rgb>, RenderError>) {
    if !(1 <= size <= MAX_SIZE) then r == Err(BadSize)
    else if count < 1 then r == Err(NoTriangles)
    else if |positions| != 9 * count then r == Err(LengthMismatch)
    else RendersScene(optics, Scene(positions, count), size, r)
  }

  ghost predicate RendersScene(optics: Optics, scene: seq<Prepared>, size: nat, r: Result<seq<Rgb>, RenderError>) {
    if scene == [] then r == Err(NothingDrawable)
    else
      && Extent(BoundsOf(scene).value) > 0.0 && IsUsable(FitOf(BoundsOf(scene).value, size), scene)
      && var tris := PixelScene(optics, scene, size);
         if PaintsNothing(tris) then r == Err(NoPixels) else r.Ok? && IsPicture(r.value, tris, size)
  }

  /** Pass one: the bounds of what can be drawn. */
  method Measure(positions: seq<real>, count: nat) returns (bounds: Option<Bounds>, drawable: nat)
    requires |positions| == 9 * count
    ensures bounds == BoundsOf(Scene(positions, count)) && drawable == |Scene(positions, count)|
  {
    hide PrepareTriangle, GrownBy;
    bounds, drawable := None, 0;
    for t := 0 to count
      invariant bounds == BoundsOf(Scene(positions, t)) && drawable == |Scene(positions, t)|
    {
      var p := PrepareTriangle(positions, 9 * t);
      if p.Some? {
        ghost var scene := Scene(positions, t);
        assert Scene(positions, t + 1) == scene + [p.value] && (scene + [p.value])[..|scene|] == scene;
        drawable := drawable + 1;
        bounds := GrownBy(bounds, p.value);
      } else {
        assert Scene(positions, t + 1) == Scene(positions, t) + [] == Scene(positions, t);
      }
    }
  }

  lemma NextTriangle(optics: Optics, fit: Fit, scene: seq<Prepared>, p: Prepared)
    requires IsUsable(fit, scene + [p])
    ensures IsUsable(fit, scene) && p.area != 0.0
    ensures TrisOf(optics, fit, scene + [p]) == TrisOf(optics, fit, scene) + [TriOf(optics, fit, p)]
  {
    assert (scene + [p])[..|scene|] == scene && (scene + [p])[|scene|] == p;
    assert forall k :: 0 <= k < |scene| ==> (scene + [p])[k] == scene[k];
  }

  lemma {:induction false} ScenePrefix(optics: Optics, fit: Fit, positions: seq<real>, n: nat, count: nat, size: nat)
    requires n <= count && 9 * count <= |positions| && IsUsable(fit, Scene(positions, count))
    requires GoodTris(TrisOf(optics, fit, Scene(positions, count)), size)
    ensures IsUsable(fit, Scene(positions, n)) && GoodTris(TrisOf(optics, fit, Scene(positions, n)), size)
    decreases count - n
  {
    hide PrepareTriangle, Normalised, TriInFrame, TriOf;
    if n < count {
      ScenePrefix(optics, fit, positions, n + 1, count, size);
      var p := PrepareTriangle(positions, 9 * n);
      if p.Some? {
        NextTriangle(optics, fit, Scene(positions, n), p.value);
        var tris := TrisOf(optics, fit, Scene(positions, n));
        forall k | 0 <= k < |tris| ensures Normalised(tris[k]) && TriInFrame(tris[k], size) {
          assert TrisOf(optics, fit, Scene(positions, n + 1))[k] == tris[k];
        }
      } else {
        assert Scene(positions, n) + [] == Scene(positions, n);
      }
    }
  }

  /** Pass two: every drawable triangle into the buffers, in order. */
  method Fill(
    optics: Optics, positions: seq<real>, count: nat, size: nat, fit: Fit, rgb: array<Rgb>, depths: array<Option<real>>)
    returns (painted: nat)
    requires |positions| == 9 * count && IsUsable(fit, Scene(positions, count)) && size > 0
    requires GoodTris(TrisOf(optics, fit, Scene(positions, count)), size)
    requires Buffered(rgb[..], depths[..], [], size) && !AnyPainted(depths[..])
    modifies rgb, depths
    ensures Buffered(rgb[..], depths[..], TrisOf(optics, fit, Scene(positions, count)), size)
    ensures painted > 0 <==> AnyPainted(depths[..])
  {
    hide Buffered, PrepareTriangle, GoodTris, IsUsable, AnyPainted, TriOf;
    painted := 0;
    ScenePrefix(optics, fit, positions, 0, count, size);
    for t := 0 to count
      invariant IsUsable(fit, Scene(positions, t))
      invariant Buffered(rgb[..], depths[..], TrisOf(optics, fit, Scene(positions, t)), size)
      invariant painted > 0 <==> AnyPainted(depths[..])
    {
      ScenePrefix(optics, fit, positions, t + 1, count, size);
      var p := PrepareTriangle(positions, 9 * t);
      ghost var scene := Scene(positions, t);
      if p.Some? {
        NextTriangle(optics, fit, scene, p.value);
        UsableScale(fit, scene);
        var tri := TriOf(optics, fit, p.value);
        LastIsGood(TrisOf(optics, fit, scene), tri, size);
        var wrote := FillTriangle(rgb, depths, size, tri, TrisOf(optics, fit, scene));
        painted := painted + wrote;
      } else {
        assert scene + [] == scene;
      }
    }
  }

  lemma UsableScale(fit: Fit, scene: seq<Prepared>)
    requires IsUsable(fit, scene)
    ensures fit.scale > 0.0
  {
  }

  lemma LastIsGood(tris: seq<Tri>, t: Tri, size: nat)
    requires GoodTris(tris + [t], size)
    ensures Normalised(t) && TriInFrame(t, size)
  {
    assert (tris + [t])[|tris|] == t;
  }

  lemma EmptyCanvas(rgb: seq<Rgb>, depths: seq<Option<real>>, size: nat)
    requires size > 0 && |rgb| == |depths| == size * size
    requires forall i :: 0 <= i < |rgb| ==> rgb[i] == BACKGROUND && depths[i] == None
    ensures Buffered(rgb, depths, [], size) && !AnyPainted(depths)
  {
  }

  lemma BufferedIsPicture(rgb: seq<Rgb>, depths: seq<Option<real>>, tris: seq<Tri>, size: nat)
    requires Buffered(rgb, depths, tris, size) && GoodTris(tris, size)
    ensures IsPicture(rgb, tris, size)
    ensures AnyPainted(depths) <==> !PaintsNothing(tris)
  {
    hide Best, Normalised, TriInFrame, CoversAt;
    if AnyPainted(depths) {
      var i :| 0 <= i < |depths| && depths[i].Some?;
      assert PixelIs(rgb, depths, i, Best(tris, i % size, i / size));
      BestIsNearest(tris, i % size, i / size);
    }
    if !PaintsNothing(tris) {
      var k, x, y :| 0 <= k < |tris| && CoversAt(tris[k], x, y);
      assert Coverage(tris[k], Sample(x), Sample(y)).Some? by { CoversMeans(tris[k], x, y); }
      BoxHoldsWhatIsCovered(tris[k], size, x, y);
      IndexOfPixel(x, y, size);
      BestIsNearest(tris, x, y);
      assert PixelIs(rgb, depths, y * size + x, Best(tris, x, y));
    }
  }

  lemma CoversMeans(t: Tri, x: int, y: int)
    requires CoversAt(t, x, y)
    ensures Coverage(t, Sample(x), Sample(y)).Some?
  {
  }

  /**
   A mesh to a square tile: past the fit it succeeds exactly when some drawable triangle covers some
   sample point, and then each pixel shows the nearest triangle over it.
   */
  method RenderMeshSized(optics: Optics, positions: seq<real>, count: nat, size: nat) returns (r: Result<seq<Rgb>, RenderError>)
    ensures Renders(optics, positions, count, size, r)
  {
    hide Scene, BoundsOf, FitOf, Extent, IsUsable, GoodScene, GoodTris, TrisOf, PaintsNothing, IsPicture, Buffered, AnyPainted;
    if !(1 <= size <= MAX_SIZE) {
      return Err(BadSize);
    }
    if count < 1 {
      return Err(NoTriangles);
    }
    if |positions| != 9 * count {
      return Err(LengthMismatch);
    }
    var bounds, drawable := Measure(positions, count);
    ghost var scene := Scene(positions, count);
    if drawable == 0 {
      return Err(NothingDrawable);
    }
    SceneIsGood(positions, count);
    SceneIsRenderable(optics, scene, size);
    if Extent(bounds.value) <= 0.0 {
      assert false;
      return Err(ZeroExtent);
    }
    var fit := FitOf(bounds.value, size);
    var rgb := new Rgb[size * size](_ => BACKGROUND);
    var depths := new Option<real>[size * size](_ => None);
    EmptyCanvas(rgb[..], depths[..], size);
    var painted := Fill(optics, positions, count, size, fit, rgb, depths);
    BufferedIsPicture(rgb[..], depths[..], TrisOf(optics, fit, scene), size);
    if painted == 0 {
      return Err(NoPixels);
    }
    return Ok(rgb[..]);
  }

  // ---- When a clamp changes the fill ----------------------------------------------------------

  predicate IsCorner(p: Prepared, v: Vec) {
    v == p.s0 || v == p.s1 || v == p.s2
  }

  lemma GrownReaches(b: Option<Bounds>, v: Vec)
    ensures Grown(b, v).value.maxX == v.x || (b.Some? && Grown(b, v).value.maxX == b.value.maxX)
    ensures Grown(b, v).value.minY == v.y || (b.Some? && Grown(b, v).value.minY == b.value.minY)
  {
  }

  lemma GrownByReaches(b: Option<Bounds>, p: Prepared)
    ensures (b.Some? && GrownBy(b, p).value.maxX == b.value.maxX) || GrownBy(b, p).value.maxX in {p.s0.x, p.s1.x, p.s2.x}
    ensures (b.Some? && GrownBy(b, p).value.minY == b.value.minY) || GrownBy(b, p).value.minY in {p.s0.y, p.s1.y, p.s2.y}
  {
    hide Grown;
    GrownReaches(b, p.s0);
    GrownReaches(Grown(b, p.s0), p.s1);
    GrownReaches(Grown(Grown(b, p.s0), p.s1), p.s2);
  }

  /** The bounds are attained: some corner is the rightmost. */
  lemma {:induction false} MaxXReached(scene: seq<Prepared>) returns (k: nat, v: Vec)
    requires scene != []
    ensures k < |scene| && IsCorner(scene[k], v) && v.x == BoundsOf(scene).value.maxX
  {
    hide GrownBy;
    var init, last := scene[..|scene| - 1], scene[|scene| - 1];
    GrownByReaches(BoundsOf(init), last);
    var x := BoundsOf(scene).value.maxX;
    if x in {last.s0.x, last.s1.x, last.s2.x} {
      k := |scene| - 1;
      v := if x == last.s0.x then last.s0 else if x == last.s1.x then last.s1 else last.s2;
    } else {
      k, v := MaxXReached(init);
    }
  }

  /** And some corner is the lowest, which on the canvas is the one farthest down. */
  lemma {:induction false} MinYReached(scene: seq<Prepared>) returns (k: nat, v: Vec)
    requires scene != []
    ensures k < |scene| && IsCorner(scene[k], v) && v.y == BoundsOf(scene).value.minY
  {
    hide GrownBy;
    var init, last := scene[..|scene| - 1], scene[|scene| - 1];
    GrownByReaches(BoundsOf(init), last);
    var y := BoundsOf(scene).value.minY;
    if y in {last.s0.y, last.s1.y, last.s2.y} {
      k := |scene| - 1;
      v := if y == last.s0.y then last.s0 else if y == last.s1.y then last.s1 else last.s2;
    } else {
      k, v := MinYReached(init);
    }
  }

  lemma HalfExtent(d: real, extent: real, scale: real, size: real)
    requires 2.0 * d == extent && scale * extent == size * 0.88
    ensures d * scale + size / 2.0 == 0.94 * size
  {
    assert 2.0 * (d * scale) == scale * extent;
  }

  /** On the longer axis the far bound lands exactly on the margin. */
  lemma FarEdgeLands(b: Bounds, v: Vec, size: nat)
    requires Extent(b) > 0.0 && size > 0
    ensures b.maxX - b.minX == Extent(b) && v.x == b.maxX ==> ToPixel(FitOf(b, size), v).x == 0.94 * size as real
    ensures b.maxY - b.minY == Extent(b) && v.y == b.minY ==> ToPixel(FitOf(b, size), v).y == 0.94 * size as real
  {
    ScaledExtent(size as real, Extent(b));
    if b.maxX - b.minX == Extent(b) && v.x == b.maxX {
      HalfExtent(b.maxX - (b.minX + b.maxX) / 2.0, Extent(b), FitOf(b, size).scale, size as real);
    }
    if b.maxY - b.minY == Extent(b) && v.y == b.minY {
      HalfExtent((b.minY + b.maxY) / 2.0 - b.minY, Extent(b), FitOf(b, size).scale, size as real);
      Opposed(b.minY, (b.minY + b.maxY) / 2.0, FitOf(b, size).scale);
    }
  }

  lemma Opposed(p: real, q: real, scale: real)
    ensures (p - q) * scale == -((q - p) * scale)
  {
  }

  lemma {:induction false} TrisAt(optics: Optics, fit: Fit, scene: seq<Prepared>, k: nat)
    requires IsUsable(fit, scene) && k < |scene|
    ensures TrisOf(optics, fit, scene)[k] == TriOf(optics, fit, scene[k])
  {
    hide TriOf;
    if k < |scene| - 1 {
      TrisAt(optics, fit, scene[..|scene| - 1], k);
    }
  }

  /** The pixels the fill would visit without its clamps. */
  function OpenBox(t: Tri): Box {
    Box(
      Min3(t.p0.x, t.p1.x, t.p2.x).Floor, Ceil(Max3(t.p0.x, t.p1.x, t.p2.x)),
      Min3(t.p0.y, t.p1.y, t.p2.y).Floor, Ceil(Max3(t.p0.y, t.p1.y, t.p2.y)))
  }

  /** A triangle on the far edge of the frame: its corner farthest right, or farthest down, lies on the margin. */
  predicate TouchesFarEdge(t: Tri, size: nat) {
    Max3(t.p0.x, t.p1.x, t.p2.x) == 0.94 * size as real || Max3(t.p0.y, t.p1.y, t.p2.y) == 0.94 * size as real
  }

  lemma Max3Holds(a: real, b: real, c: real, m: real)
    requires a <= m && b <= m && c <= m && (a == m || b == m || c == m)
    ensures Max3(a, b, c) == m
  {
  }

  lemma CornerTouches(optics: Optics, fit: Fit, p: Prepared, v: Vec, size: nat)
    requires p.area != 0.0 && fit.scale > 0.0 && IsCorner(p, v) && TriInFrame(TriOf(optics, fit, p), size)
    requires ToPixel(fit, v).x == 0.94 * size as real || ToPixel(fit, v).y == 0.94 * size as real
    ensures TouchesFarEdge(TriOf(optics, fit, p), size)
  {
    hide ToPixel, AreaInPixels, Face, Max3;
    var t := TriOf(optics, fit, p);
    if ToPixel(fit, v).x == 0.94 * size as real {
      Max3Holds(t.p0.x, t.p1.x, t.p2.x, 0.94 * size as real);
    } else {
      Max3Holds(t.p0.y, t.p1.y, t.p2.y, 0.94 * size as real);
    }
  }

  /** Every scene has one: the frame is fitted to it. */
  lemma FarEdgeIsReached(optics: Optics, scene: seq<Prepared>, size: nat) returns (k: nat)
    requires GoodScene(scene) && scene != [] && size > 0
    requires Extent(BoundsOf(scene).value) > 0.0 && IsUsable(FitOf(BoundsOf(scene).value, size), scene)
    requires GoodTris(PixelScene(optics, scene, size), size)
    ensures k < |scene| && TouchesFarEdge(PixelScene(optics, scene, size)[k], size)
  {
    hide BoundsOf, FitOf, ToPixel, TriOf, TouchesFarEdge, Normalised, TriInFrame, IsCorner, TrisOf;
    var b := BoundsOf(scene).value;
    var fit := FitOf(b, size);
    var v;
    if b.maxX - b.minX == Extent(b) {
      k, v := MaxXReached(scene);
    } else {
      k, v := MinYReached(scene);
    }
    FarEdgeLands(b, v, size);
    TrisAt(optics, fit, scene, k);
    assert TriInFrame(PixelScene(optics, scene, size)[k], size);
    CornerTouches(optics, fit, scene[k], v, size);
  }

  lemma MinOverMax(a: real, b: real, c: real)
    ensures Min3(a, b, c) <= Max3(a, b, c)
  {
  }

  lemma FramedExtremes(t: Tri, size: nat)
    requires TriInFrame(t, size)
    ensures 0.06 * size as real <= Min3(t.p0.x, t.p1.x, t.p2.x) <= Max3(t.p0.x, t.p1.x, t.p2.x) <= 0.94 * size as real
    ensures 0.06 * size as real <= Min3(t.p0.y, t.p1.y, t.p2.y) <= Max3(t.p0.y, t.p1.y, t.p2.y) <= 0.94 * size as real
  {
  }

  lemma WhichBoxesChange(t: Tri, size: nat)
    requires TriInFrame(t, size) && size > 0
    ensures size >= 17 ==> BoxOf(t, size) == OpenBox(t)
    ensures size <= 16 && TouchesFarEdge(t, size) ==> BoxOf(t, size) != OpenBox(t)
  {
    hide Min3, Max3, Clamp, TriInFrame, Ceil;
    FramedExtremes(t, size);
    ClampsFire(Min3(t.p0.x, t.p1.x, t.p2.x), Max3(t.p0.x, t.p1.x, t.p2.x), size);
    ClampsFire(Min3(t.p0.y, t.p1.y, t.p2.y), Max3(t.p0.y, t.p1.y, t.p2.y), size);
  }

  ghost predicate SomeClampChanges(tris: seq<Tri>, size: nat) {
    exists k :: 0 <= k < |tris| && BoxOf(tris[k], size) != OpenBox(tris[k])
  }

  /** In every render that gets as far as the fill, some clamp changes a bound exactly up to 16 pixels. */
  lemma ClampsFireUpTo16(optics: Optics, scene: seq<Prepared>, size: nat)
    requires GoodScene(scene) && scene != [] && size > 0
    ensures Extent(BoundsOf(scene).value) > 0.0 && IsUsable(FitOf(BoundsOf(scene).value, size), scene)
    ensures SomeClampChanges(PixelScene(optics, scene, size), size) <==> size <= 16
  {
    hide BoundsOf, FitOf, Extent, TriOf, TouchesFarEdge, Normalised, TriInFrame, TrisOf, BoxOf, OpenBox, GoodScene, IsUsable;
    SceneIsRenderable(optics, scene, size);
    var tris := PixelScene(optics, scene, size);
    if size <= 16 {
      var k := FarEdgeIsReached(optics, scene, size);
      WhichBoxesChange(tris[k], size);
    } else {
      forall k | 0 <= k < |tris| ensures BoxOf(tris[k], size) == OpenBox(tris[k]) {
        WhichBoxesChange(tris[k], size);
      }
    }
  }

  // ---- Winding --------------------------------------------------------------------------------

  function Reversed(p: Prepared): Prepared {
    Prepared(Opposite(p.normal), p.s0, p.s2, p.s1, -p.area)
  }

  function Rotated(p: Prepared): Prepared {
    Prepared(p.normal, p.s1, p.s2, p.s0, p.area)
  }

  function Swapped(t: Tri): Tri {
    Tri(t.p0, t.p2, t.p1, -t.inverse, t.face)
  }

  function Turned(t: Tri): Tri {
    Tri(t.p1, t.p2, t.p0, t.inverse, t.face)
  }

  /** `(x, y, z)` are the corners `(a, b, c)`, starting anywhere and going either way round. */
  predicate SameCorners(a: Vec, b: Vec, c: Vec, x: Vec, y: Vec, z: Vec) {
    || (x == a && y == b && z == c) || (x == b && y == c && z == a) || (x == c && y == a && z == b)
    || (x == a && y == c && z == b) || (x == b && y == a && z == c) || (x == c && y == b && z == a)
  }

  ghost predicate SameButWinding(p: seq<real>, q: seq<real>, t: nat)
    requires 9 * t + 9 <= |p| == |q|
  {
    SameCorners(
      Corner(p, 9 * t), Corner(p, 9 * t + 3), Corner(p, 9 * t + 6),
      Corner(q, 9 * t), Corner(q, 9 * t + 3), Corner(q, 9 * t + 6))
  }

  lemma ProjectedReversed(a: Vec, b: Vec, c: Vec)
    ensures Projected(a, c, b) == Reversed(Projected(a, b, c))
  {
    hide Cross, Area, Project;
    CrossReversed(Minus(b, a), Minus(c, a));
    AreaReversed(Project(a), Project(b), Project(c));
  }

  lemma CrossRotated(a: Vec, b: Vec, c: Vec)
    ensures FaceNormal(b, c, a) == FaceNormal(a, b, c)
  {
  }

  lemma AreaRotated(a: Vec, b: Vec, c: Vec)
    ensures Area(b, c, a) == Area(a, b, c)
  {
  }

  lemma ProjectedRotated(a: Vec, b: Vec, c: Vec)
    ensures Projected(b, c, a) == Rotated(Projected(a, b, c))
  {
    hide FaceNormal, Area, Project;
    CrossRotated(a, b, c);
    AreaRotated(Project(a), Project(b), Project(c));
  }

  predicate SameTriangle(p: Prepared, q: Prepared) {
    || q == p || q == Rotated(p) || q == Rotated(Rotated(p))
    || q == Reversed(p) || q == Reversed(Rotated(p)) || q == Reversed(Rotated(Rotated(p)))
  }

  lemma SameTriangleSameExtent(p: Prepared, q: Prepared)
    requires SameTriangle(p, q)
    ensures IsDrawable(q) == IsDrawable(p)
  {
    DotOpposite(p.normal, p.normal);
  }

  ghost predicate SameScene(a: seq<Prepared>, b: seq<Prepared>) {
    |a| == |b| && forall k :: 0 <= k < |a| ==> SameTriangle(a[k], b[k])
  }

  lemma {:induction false} ScenesAgree(p: seq<real>, q: seq<real>, n: nat)
    requires 9 * n <= |p| == |q| && forall t :: 0 <= t < n ==> SameButWinding(p, q, t)
    ensures SameScene(Scene(p, n), Scene(q, n))
  {
    hide Projected, IsDrawable, Rotated, Reversed, Corner;
    if n > 0 {
      ScenesAgree(p, q, n - 1);
      assert SameButWinding(p, q, n - 1);
      var a, b, c := Corner(p, 9 * (n - 1)), Corner(p, 9 * (n - 1) + 3), Corner(p, 9 * (n - 1) + 6);
      var x, y, z := Corner(q, 9 * (n - 1)), Corner(q, 9 * (n - 1) + 3), Corner(q, 9 * (n - 1) + 6);
      assert SameTriangle(Projected(a, b, c), Projected(x, y, z)) by {
        ProjectedRotated(a, b, c);
        ProjectedRotated(b, c, a);
        ProjectedReversed(a, b, c);
        ProjectedReversed(b, c, a);
        ProjectedReversed(c, a, b);
      }
      SameTriangleSameExtent(Projected(a, b, c), Projected(x, y, z));
    }
  }

  lemma MinMaxSwap(m: real, a: real, b: real)
    ensures Min(Min(m, a), b) == Min(Min(m, b), a) && Max(Max(m, a), b) == Max(Max(m, b), a)
  {
  }

  lemma MinMaxOrder(a: real, b: real)
    ensures Min(a, b) == Min(b, a) && Max(a, b) == Max(b, a)
  {
  }

  lemma GrownSwap(b: Option<Bounds>, v: Vec, w: Vec)
    ensures Grown(Grown(b, v), w) == Grown(Grown(b, w), v)
  {
    hide Min, Max;
    if b.Some? {
      MinMaxSwap(b.value.minX, v.x, w.x);
      MinMaxSwap(b.value.maxX, v.x, w.x);
      MinMaxSwap(b.value.minY, v.y, w.y);
      MinMaxSwap(b.value.maxY, v.y, w.y);
      MinMaxSwap(b.value.minDepth, v.z, w.z);
    } else {
      MinMaxOrder(v.x, w.x);
      MinMaxOrder(v.y, w.y);
      MinMaxOrder(v.z, w.z);
    }
  }

  lemma GrownByRotated(b: Option<Bounds>, p: Prepared)
    ensures GrownBy(b, Rotated(p)) == GrownBy(b, p)
  {
    hide Grown;
    GrownSwap(b, p.s0, p.s1);
    GrownSwap(Grown(b, p.s1), p.s0, p.s2);
  }

  lemma GrownByReversed(b: Option<Bounds>, p: Prepared)
    ensures GrownBy(b, Reversed(p)) == GrownBy(b, p)
  {
    hide Grown, Opposite;
    GrownSwap(Grown(b, p.s0), p.s1, p.s2);
  }

  lemma GrownByAgrees(b: Option<Bounds>, p: Prepared, q: Prepared)
    requires SameTriangle(p, q)
    ensures GrownBy(b, q) == GrownBy(b, p)
  {
    hide GrownBy, Rotated, Reversed;
    GrownByRotated(b, p);
    GrownByRotated(b, Rotated(p));
    GrownByReversed(b, p);
    GrownByReversed(b, Rotated(p));
    GrownByReversed(b, Rotated(Rotated(p)));
  }

  lemma {:induction false} BoundsAgree(a: seq<Prepared>, b: seq<Prepared>)
    requires SameScene(a, b)
    ensures BoundsOf(a) == BoundsOf(b)
  {
    hide GrownBy, SameTriangle;
    if a != [] {
      assert SameTriangle(a[|a| - 1], b[|b| - 1]);
      BoundsAgree(a[..|a| - 1], b[..|b| - 1]);
      GrownByAgrees(BoundsOf(a[..|a| - 1]), a[|a| - 1], b[|b| - 1]);
    }
  }

  lemma NegativeReciprocal(x: real)
    requires x != 0.0
    ensures -x != 0.0 && 1.0 / (-x) == -(1.0 / x)
  {
    var r := 1.0 / x;
    assert x * r == 1.0;
    assert (-x) * (-r) == 1.0;
    Reciprocal(-x);
    SameFactor(-x, 1.0 / (-x), -r);
  }

  lemma SameFactor(x: real, a: real, b: real)
    requires x != 0.0 && x * a == x * b
    ensures a == b
  {
    assert x * (a - b) == 0.0;
  }

  lemma AreaNegated(area: real, scale: real)
    ensures AreaInPixels(-area, scale) == -AreaInPixels(area, scale)
  {
  }

  lemma TriReversed(optics: Optics, fit: Fit, p: Prepared)
    requires p.area != 0.0 && fit.scale > 0.0
    ensures TriOf(optics, fit, Reversed(p)) == Swapped(TriOf(optics, fit, p))
  {
    hide AreaInPixels, Face, ToPixel, Opposite;
    AreaNegated(p.area, fit.scale);
    AreaSurvives(p.area, fit.scale);
    NegativeReciprocal(AreaInPixels(p.area, fit.scale));
    FaceIgnoresWinding(optics, p.normal);
  }

  lemma TriRotated(optics: Optics, fit: Fit, p: Prepared)
    requires p.area != 0.0 && fit.scale > 0.0
    ensures TriOf(optics, fit, Rotated(p)) == Turned(TriOf(optics, fit, p))
  {
    hide AreaInPixels, Face, ToPixel;
  }

  predicate SameTri(t: Tri, u: Tri) {
    || u == t || u == Turned(t) || u == Turned(Turned(t))
    || u == Swapped(t) || u == Swapped(Turned(t)) || u == Swapped(Turned(Turned(t)))
  }

  lemma SameArea(p: Prepared, q: Prepared)
    requires SameTriangle(p, q)
    ensures q.area == p.area || q.area == -p.area
  {
    hide Opposite;
  }

  lemma RotatedArea(p: Prepared)
    ensures Rotated(p).area == p.area
  {
  }

  lemma TriAgrees(optics: Optics, fit: Fit, p: Prepared, q: Prepared)
    requires p.area != 0.0 && fit.scale > 0.0 && SameTriangle(p, q)
    ensures q.area != 0.0 && SameTri(TriOf(optics, fit, p), TriOf(optics, fit, q))
  {
    SameArea(p, q);
    hide TriOf, Rotated, Reversed, Turned, Swapped;
    RotatedArea(p);
    RotatedArea(Rotated(p));
    TriRotated(optics, fit, p);
    TriRotated(optics, fit, Rotated(p));
    TriReversed(optics, fit, p);
    TriReversed(optics, fit, Rotated(p));
    TriReversed(optics, fit, Rotated(Rotated(p)));
  }

  lemma TwoSigns(a: real, b: real)
    ensures (-a) * (-b) == a * b
  {
  }

  lemma WeightsAgree(t: Tri, sx: real, sy: real)
    ensures Weight0(Swapped(t), sx, sy) == Weight0(t, sx, sy)
    ensures Weight1(Swapped(t), sx, sy) == Weight2(t, sx, sy)
    ensures Weight2(Swapped(t), sx, sy) == Weight1(t, sx, sy)
  {
    hide Edge;
    EdgeReversed(t.p1, t.p2, sx, sy);
    EdgeReversed(t.p0, t.p1, sx, sy);
    EdgeReversed(t.p2, t.p0, sx, sy);
    TwoSigns(Edge(t.p1, t.p2, sx, sy), t.inverse);
    TwoSigns(Edge(t.p0, t.p1, sx, sy), t.inverse);
    TwoSigns(Edge(t.p2, t.p0, sx, sy), t.inverse);
  }

  /** Reversing a triangle's winding changes neither what it covers nor how deep. */
  lemma CoverageIgnoresWinding(t: Tri, sx: real, sy: real)
    ensures Coverage(Swapped(t), sx, sy) == Coverage(t, sx, sy)
  {
    hide Weight0, Weight1, Weight2, DepthAt, Swapped;
    WeightsAgree(t, sx, sy);
    DepthAgrees(t, Weight0(t, sx, sy), Weight1(t, sx, sy), Weight2(t, sx, sy));
  }

  lemma DepthAgrees(t: Tri, w0: real, w1: real, w2: real)
    ensures DepthAt(Swapped(t), w0, w2, w1) == DepthAt(t, w0, w1, w2)
  {
  }

  lemma DepthTurns(t: Tri, w0: real, w1: real, w2: real)
    ensures DepthAt(Turned(t), w1, w2, w0) == DepthAt(t, w0, w1, w2)
  {
  }

  lemma WeightsTurn(t: Tri, sx: real, sy: real)
    ensures Weight0(Turned(t), sx, sy) == Weight1(t, sx, sy)
    ensures Weight1(Turned(t), sx, sy) == Weight2(t, sx, sy)
    ensures Weight2(Turned(t), sx, sy) == Weight0(t, sx, sy)
  {
    hide Edge;
  }

  /** Nor does starting from another corner. */
  lemma CoverageIgnoresStart(t: Tri, sx: real, sy: real)
    ensures Coverage(Turned(t), sx, sy) == Coverage(t, sx, sy)
  {
    hide Weight0, Weight1, Weight2, DepthAt, Turned;
    WeightsTurn(t, sx, sy);
    DepthTurns(t, Weight0(t, sx, sy), Weight1(t, sx, sy), Weight2(t, sx, sy));
  }

  lemma SameTriSameCoverage(t: Tri, u: Tri, sx: real, sy: real)
    requires SameTri(t, u)
    ensures Coverage(u, sx, sy) == Coverage(t, sx, sy) && u.face == t.face
  {
    hide Coverage;
    CoverageIgnoresStart(t, sx, sy);
    CoverageIgnoresStart(Turned(t), sx, sy);
    CoverageIgnoresWinding(t, sx, sy);
    CoverageIgnoresWinding(Turned(t), sx, sy);
    CoverageIgnoresWinding(Turned(Turned(t)), sx, sy);
  }

  ghost predicate SameTris(a: seq<Tri>, b: seq<Tri>) {
    |a| == |b| && forall k :: 0 <= k < |a| ==> SameTri(a[k], b[k])
  }

  lemma {:induction false} TrisAgree(optics: Optics, fit: Fit, a: seq<Prepared>, b: seq<Prepared>)
    requires SameScene(a, b) && IsUsable(fit, a)
    ensures IsUsable(fit, b) && SameTris(TrisOf(optics, fit, a), TrisOf(optics, fit, b))
  {
    hide TriOf, SameTri, SameTriangle;
    forall k | 0 <= k < |b| ensures b[k].area != 0.0 {
      TriAgrees(optics, fit, a[k], b[k]);
    }
    if a != [] {
      TrisAgree(optics, fit, a[..|a| - 1], b[..|b| - 1]);
      TriAgrees(optics, fit, a[|a| - 1], b[|b| - 1]);
    }
  }

  lemma {:induction false} BestAgrees(a: seq<Tri>, b: seq<Tri>, x: int, y: int)
    requires SameTris(a, b)
    ensures Best(a, x, y) == Best(b, x, y)
  {
    hide Coverage, Sample, SameTri;
    if a != [] {
      BestAgrees(a[..|a| - 1], b[..|b| - 1], x, y);
      SameTriSameCoverage(a[|a| - 1], b[|b| - 1], Sample(x), Sample(y));
    }
  }

  lemma PaintingAgrees(a: seq<Tri>, b: seq<Tri>)
    requires SameTris(a, b)
    ensures PaintsNothing(a) == PaintsNothing(b)
  {
    hide Coverage, SameTri;
    forall k, x, y | 0 <= k < |a| ensures CoversAt(a[k], x, y) == CoversAt(b[k], x, y) {
      SameTriSameCoverage(a[k], b[k], Sample(x), Sample(y));
    }
  }

  /** A mesh and the same mesh with the corners of its triangles in any other orders render alike. */
  lemma WindingIsIrrelevant(optics: Optics, p: seq<real>, q: seq<real>, count: nat, size: nat, r: Result<seq<Rgb>, RenderError>)
    requires |p| == |q| && (|p| == 9 * count ==> forall t :: 0 <= t < count ==> SameButWinding(p, q, t))
    requires Renders(optics, p, count, size, r)
    ensures Renders(optics, q, count, size, r)
  {
    hide Scene, BoundsOf, FitOf, Extent, IsUsable, TrisOf, PaintsNothing, Best, SameScene, SameTris, SameButWinding;
    if 1 <= size <= MAX_SIZE && count >= 1 && |p| == 9 * count {
      var a, b := Scene(p, count), Scene(q, count);
      ScenesAgree(p, q, count);
      BoundsAgree(a, b);
      if a != [] {
        var fit := FitOf(BoundsOf(a).value, size);
        TrisAgree(optics, fit, a, b);
        PaintingAgrees(TrisOf(optics, fit, a), TrisOf(optics, fit, b));
        if r.Ok? {
          forall i | 0 <= i < |r.value|
            ensures Best(TrisOf(optics, fit, a), i % size, i / size) == Best(TrisOf(optics, fit, b), i % size, i / size)
          {
            BestAgrees(TrisOf(optics, fit, a), TrisOf(optics, fit, b), i % size, i / size);
          }
        }
      }
    }
  }
}
