/** The triangle rasterizer of the PlayStation GPU: a bounding box clipped to the
    drawing area, an inclusive three-edge test, and integer barycentric
    interpolation of colour and texture coordinates. */
module PsxRaster {
  import opened Words

  datatype Vertex = Vertex(x: int, y: int, r: int, g: int, b: int, u: int, v: int)

  /** The drawing area set by GP0(E3h) and GP0(E4h); both corners are inside. */
  datatype Area = Area(x1: int, y1: int, x2: int, y2: int)

  /** One call of the pixel writer: where, and with which interpolated attributes. */
  datatype Pixel = Pixel(x: int, y: int, r: int, g: int, b: int, u: int, v: int)

  function EdgeFn(a: Vertex, b: Vertex, px: int, py: int): int {
    (b.x - a.x) * (py - a.y) - (b.y - a.y) * (px - a.x)
  }

  function SignedArea(v0: Vertex, v1: Vertex, v2: Vertex): int {
    EdgeFn(v0, v1, v2.x, v2.y)
  }

  function Min3(a: int, b: int, c: int): int {
    if a < b then (if a < c then a else c) else (if b < c then b else c)
  }

  function Max3(a: int, b: int, c: int): int {
    if a > b then (if a > c then a else c) else (if b > c then b else c)
  }

  /** C division: truncates toward zero. */
  function CDiv(n: int, d: int): int
    requires d > 0
  {
    if n >= 0 then n / d else -((-n) / d)
  }

  predicate InArea(ar: Area, x: int, y: int) {
    ar.x1 <= x <= ar.x2 && ar.y1 <= y <= ar.y2
  }

  /** The triangles that are dropped before any pixel is looked at. */
  predicate Skipped(v0: Vertex, v1: Vertex, v2: Vertex) {
    || SignedArea(v0, v1, v2) == 0
    || Max3(v0.x, v1.x, v2.x) - Min3(v0.x, v1.x, v2.x) > 1023
    || Max3(v0.y, v1.y, v2.y) - Min3(v0.y, v1.y, v2.y) > 511
  }

  /** The three edge functions at (x, y) share a sign: the point lies in the
      closed triangle. */
  predicate Covered(v0: Vertex, v1: Vertex, v2: Vertex, x: int, y: int) {
    var w0, w1, w2 := EdgeFn(v1, v2, x, y), EdgeFn(v2, v0, x, y), EdgeFn(v0, v1, x, y);
    (w0 >= 0 && w1 >= 0 && w2 >= 0) || (w0 <= 0 && w1 <= 0 && w2 <= 0)
  }

  /** The sign-adjusted weight of the vertex opposite edge a-b. */
  function Weight(area: int, a: Vertex, b: Vertex, x: int, y: int): int {
    if area < 0 then -EdgeFn(a, b, x, y) else EdgeFn(a, b, x, y)
  }

  function Abs(n: int): int {
    if n < 0 then -n else n
  }

  /** One attribute at (x, y), given its value c0, c1, c2 at the vertices. */
  function Interpolate(v0: Vertex, v1: Vertex, v2: Vertex, c0: int, c1: int, c2: int, x: int, y: int): int
    requires SignedArea(v0, v1, v2) != 0
  {
    var area := SignedArea(v0, v1, v2);
    CDiv(Weight(area, v1, v2, x, y) * c0 + Weight(area, v2, v0, x, y) * c1 + Weight(area, v0, v1, x, y) * c2,
         Abs(area))
  }

  function Shade(v0: Vertex, v1: Vertex, v2: Vertex, textured: bool, x: int, y: int): Pixel
    requires SignedArea(v0, v1, v2) != 0
  {
    Pixel(x, y,
          Interpolate(v0, v1, v2, v0.r, v1.r, v2.r, x, y),
          Interpolate(v0, v1, v2, v0.g, v1.g, v2.g, x, y),
          Interpolate(v0, v1, v2, v0.b, v1.b, v2.b, x, y),
          if textured then Interpolate(v0, v1, v2, v0.u, v1.u, v2.u, x, y) else 0,
          if textured then Interpolate(v0, v1, v2, v0.v, v1.v, v2.v, x, y) else 0)
  }

  /** Scan order: top to bottom, left to right, no position twice. */
  predicate Before(p: Pixel, q: Pixel) {
    p.y < q.y || (p.y == q.y && p.x < q.x)
  }

  predicate RowMajor(ps: seq<Pixel>) {
    forall i, j :: 0 <= i < j < |ps| ==> Before(ps[i], ps[j])
  }

  // ---- geometry -------------------------------------------------------------

  lemma EdgesSumToArea(v0: Vertex, v1: Vertex, v2: Vertex, x: int, y: int)
    ensures EdgeFn(v1, v2, x, y) + EdgeFn(v2, v0, x, y) + EdgeFn(v0, v1, x, y) == SignedArea(v0, v1, v2)
  {
  }

  /** area * P == w0 * V0 + w1 * V1 + w2 * V2, coordinate by coordinate. */
  lemma Barycentric(v0: Vertex, v1: Vertex, v2: Vertex, x: int, y: int)
    ensures EdgeFn(v1, v2, x, y) * v0.x + EdgeFn(v2, v0, x, y) * v1.x + EdgeFn(v0, v1, x, y) * v2.x
         == SignedArea(v0, v1, v2) * x
    ensures EdgeFn(v1, v2, x, y) * v0.y + EdgeFn(v2, v0, x, y) * v1.y + EdgeFn(v0, v1, x, y) * v2.y
         == SignedArea(v0, v1, v2) * y
  {
  }

  /** Inside a non-degenerate triangle the adjusted weights are a partition of |area|. */
  lemma WeightsPartition(v0: Vertex, v1: Vertex, v2: Vertex, x: int, y: int)
    requires SignedArea(v0, v1, v2) != 0
    requires Covered(v0, v1, v2, x, y)
    ensures var a := SignedArea(v0, v1, v2);
      && Weight(a, v1, v2, x, y) >= 0 && Weight(a, v2, v0, x, y) >= 0 && Weight(a, v0, v1, x, y) >= 0
      && Weight(a, v1, v2, x, y) + Weight(a, v2, v0, x, y) + Weight(a, v0, v1, x, y) == Abs(a)
  {
    EdgesSumToArea(v0, v1, v2, x, y);
  }

  lemma WeightedBounds(s0: int, s1: int, s2: int, c0: int, c1: int, c2: int, lo: int, hi: int)
    requires s0 >= 0 && s1 >= 0 && s2 >= 0
    requires lo <= c0 <= hi && lo <= c1 <= hi && lo <= c2 <= hi
    ensures lo * (s0 + s1 + s2) <= s0 * c0 + s1 * c1 + s2 * c2 <= hi * (s0 + s1 + s2)
  {
    assert lo * s0 <= s0 * c0 <= hi * s0;
    assert lo * s1 <= s1 * c1 <= hi * s1;
    assert lo * s2 <= s2 * c2 <= hi * s2;
  }

  /** Completeness of the bounding box: a covered point lies inside it. */
  lemma CoveredInBox(v0: Vertex, v1: Vertex, v2: Vertex, x: int, y: int)
    requires SignedArea(v0, v1, v2) != 0
    requires Covered(v0, v1, v2, x, y)
    ensures Min3(v0.x, v1.x, v2.x) <= x <= Max3(v0.x, v1.x, v2.x)
    ensures Min3(v0.y, v1.y, v2.y) <= y <= Max3(v0.y, v1.y, v2.y)
  {
    hide EdgeFn, SignedArea, Covered, Min3, Max3;
    var area := SignedArea(v0, v1, v2);
    var w0, w1, w2 := EdgeFn(v1, v2, x, y), EdgeFn(v2, v0, x, y), EdgeFn(v0, v1, x, y);
    CoveredSign(v0, v1, v2, x, y);
    EdgesSumToArea(v0, v1, v2, x, y);
    Barycentric(v0, v1, v2, x, y);
    SignedMean(w0, w1, w2, area, v0.x, v1.x, v2.x, x);
    SignedMean(w0, w1, w2, area, v0.y, v1.y, v2.y, y);
  }

  lemma SignedMean(w0: int, w1: int, w2: int, area: int, c0: int, c1: int, c2: int, p: int)
    requires area != 0 && w0 + w1 + w2 == area
    requires if area > 0 then w0 >= 0 && w1 >= 0 && w2 >= 0 else w0 <= 0 && w1 <= 0 && w2 <= 0
    requires w0 * c0 + w1 * c1 + w2 * c2 == area * p
    ensures Min3(c0, c1, c2) <= p <= Max3(c0, c1, c2)
  {
    hide Min3, Max3;
    if area > 0 {
      WeightedMean(w0, w1, w2, area, c0, c1, c2, p);
    } else {
      SignAdjusted(area, w0, w1, w2, c0, c1, c2, p);
      WeightedMean(-w0, -w1, -w2, -area, c0, c1, c2, p);
    }
  }

  lemma WeightedMean(s0: int, s1: int, s2: int, a: int, c0: int, c1: int, c2: int, p: int)
    requires s0 >= 0 && s1 >= 0 && s2 >= 0 && a > 0 && s0 + s1 + s2 == a
    requires s0 * c0 + s1 * c1 + s2 * c2 == a * p
    ensures Min3(c0, c1, c2) <= p <= Max3(c0, c1, c2)
  {
    var lo, hi := Min3(c0, c1, c2), Max3(c0, c1, c2);
    WeightedBounds(s0, s1, s2, c0, c1, c2, lo, hi);
    CancelFactor(a, lo, p);
    CancelFactor(a, p, hi);
  }

  // ---- interpolation --------------------------------------------------------

  /** What truncation toward zero means: the remainder keeps the dividend's sign. */
  lemma CDivBracket(n: int, a: int)
    requires a > 0
    ensures n >= 0 ==> a * CDiv(n, a) <= n < a * CDiv(n, a) + a
    ensures n <= 0 ==> a * CDiv(n, a) - a < n <= a * CDiv(n, a)
  {
    var q := CDiv(n, a);
    if n >= 0 {
      assert n == a * q + n % a;
    } else {
      assert -n == a * (-q) + (-n) % a;
      assert a * (-q) == -(a * q);
    }
  }

  lemma CDivExact(a: int, q: int)
    requires a > 0
    ensures CDiv(a * q, a) == q
  {
    hide CDiv;
    var n := a * q;
    var r := CDiv(n, a);
    CDivBracket(n, a);
    assert a * (r + 1) == a * r + a && a * (q + 1) == n + a && a * (r - 1) == a * r - a && a * (q - 1) == n - a;
    CancelFactor(a, q - 1, r);
    CancelFactor(a, r, q + 1);
  }

  lemma CDivMonotone(m: int, n: int, a: int)
    requires a > 0 && m <= n
    ensures CDiv(m, a) <= CDiv(n, a)
  {
    hide CDiv;
    var q, r := CDiv(m, a), CDiv(n, a);
    CDivBracket(m, a);
    CDivBracket(n, a);
    assert a * (r + 1) == a * r + a && a * (q - 1) == a * q - a;
    if m >= 0 {
      CancelFactor(a, q, r + 1);
    } else if n <= 0 {
      CancelFactor(a, q - 1, r);
    } else {
      CancelFactor(a, q - 1, 0);
      CancelFactor(a, 0, r + 1);
    }
  }

  /** No over- or undershoot: an interpolated attribute lies between the least and
      the greatest of the three vertex values. */
  lemma InterpolationBounded(v0: Vertex, v1: Vertex, v2: Vertex, c0: int, c1: int, c2: int, x: int, y: int)
    requires SignedArea(v0, v1, v2) != 0
    requires Covered(v0, v1, v2, x, y)
    ensures Min3(c0, c1, c2) <= Interpolate(v0, v1, v2, c0, c1, c2, x, y) <= Max3(c0, c1, c2)
  {
    var area := SignedArea(v0, v1, v2);
    WeightsPartition(v0, v1, v2, x, y);
    QuotientBounded(Weight(area, v1, v2, x, y), Weight(area, v2, v0, x, y), Weight(area, v0, v1, x, y),
                    c0, c1, c2, Abs(area));
  }

  lemma QuotientBounded(s0: int, s1: int, s2: int, c0: int, c1: int, c2: int, a: int)
    requires s0 >= 0 && s1 >= 0 && s2 >= 0 && s0 + s1 + s2 == a > 0
    ensures Min3(c0, c1, c2) <= CDiv(s0 * c0 + s1 * c1 + s2 * c2, a) <= Max3(c0, c1, c2)
  {
    var lo, hi := Min3(c0, c1, c2), Max3(c0, c1, c2);
    WeightedBounds(s0, s1, s2, c0, c1, c2, lo, hi);
    var n := s0 * c0 + s1 * c1 + s2 * c2;
    CDivMonotone(a * lo, n, a);
    CDivMonotone(n, a * hi, a);
    CDivExact(a, lo);
    CDivExact(a, hi);
  }

  /** Interpolation is exact for attributes that are affine in the vertex
      coordinates, at every point. */
  lemma InterpolationExactOnPlanes(v0: Vertex, v1: Vertex, v2: Vertex, kx: int, ky: int, k: int, x: int, y: int)
    requires SignedArea(v0, v1, v2) != 0
    ensures Interpolate(v0, v1, v2,
                        kx * v0.x + ky * v0.y + k, kx * v1.x + ky * v1.y + k, kx * v2.x + ky * v2.y + k, x, y)
         == kx * x + ky * y + k
  {
    var area := SignedArea(v0, v1, v2);
    var a := Abs(area);
    var w0, w1, w2 := EdgeFn(v1, v2, x, y), EdgeFn(v2, v0, x, y), EdgeFn(v0, v1, x, y);
    EdgesSumToArea(v0, v1, v2, x, y);
    Barycentric(v0, v1, v2, x, y);
    AffineCombination(w0, w1, w2, v0.x, v1.x, v2.x, v0.y, v1.y, v2.y, area, x, y, kx, ky, k);
    var s0, s1, s2 := Weight(area, v1, v2, x, y), Weight(area, v2, v0, x, y), Weight(area, v0, v1, x, y);
    var q := kx * x + ky * y + k;
    var c0, c1, c2 := kx * v0.x + ky * v0.y + k, kx * v1.x + ky * v1.y + k, kx * v2.x + ky * v2.y + k;
    SignAdjusted(area, w0, w1, w2, c0, c1, c2, q);
    assert s0 * c0 + s1 * c1 + s2 * c2 == a * q;
    CDivExact(a, q);
  }

  lemma AffineCombination(w0: int, w1: int, w2: int, x0: int, x1: int, x2: int, y0: int, y1: int, y2: int,
                          area: int, x: int, y: int, kx: int, ky: int, k: int)
    requires w0 + w1 + w2 == area
    requires w0 * x0 + w1 * x1 + w2 * x2 == area * x
    requires w0 * y0 + w1 * y1 + w2 * y2 == area * y
    ensures w0 * (kx * x0 + ky * y0 + k) + w1 * (kx * x1 + ky * y1 + k) + w2 * (kx * x2 + ky * y2 + k)
         == area * (kx * x + ky * y + k)
  {
    WeightedTerm(w0, kx, x0, ky, y0, k);
    WeightedTerm(w1, kx, x1, ky, y1, k);
    WeightedTerm(w2, kx, x2, ky, y2, k);
    WeightedTerm(area, kx, x, ky, y, k);
    SpreadFactor(kx, w0 * x0, w1 * x1, w2 * x2, area * x);
    SpreadFactor(ky, w0 * y0, w1 * y1, w2 * y2, area * y);
    SpreadFactor(k, w0, w1, w2, area);
  }

  lemma WeightedTerm(w: int, kx: int, x: int, ky: int, y: int, k: int)
    ensures w * (kx * x + ky * y + k) == kx * (w * x) + ky * (w * y) + k * w
  {
    assert w * (kx * x) == kx * (w * x) && w * (ky * y) == ky * (w * y);
  }

  lemma SpreadFactor(k: int, p: int, q: int, r: int, sum: int)
    requires p + q + r == sum
    ensures k * p + k * q + k * r == k * sum
  {
  }

  lemma SignAdjusted(area: int, w0: int, w1: int, w2: int, c0: int, c1: int, c2: int, q: int)
    requires w0 * c0 + w1 * c1 + w2 * c2 == area * q
    ensures area < 0 ==> (-w0) * c0 + (-w1) * c1 + (-w2) * c2 == (-area) * q
  {
  }

  /** Equal vertex values give that value at every point. */
  lemma InterpolationConstant(v0: Vertex, v1: Vertex, v2: Vertex, c: int, x: int, y: int)
    requires SignedArea(v0, v1, v2) != 0
    ensures Interpolate(v0, v1, v2, c, c, c, x, y) == c
  {
    InterpolationExactOnPlanes(v0, v1, v2, 0, 0, c, x, y);
  }

  /** At a vertex the interpolated attribute is that vertex's own. */
  lemma InterpolationExactAtVertices(v0: Vertex, v1: Vertex, v2: Vertex, c0: int, c1: int, c2: int)
    requires SignedArea(v0, v1, v2) != 0
    ensures Interpolate(v0, v1, v2, c0, c1, c2, v0.x, v0.y) == c0
    ensures Interpolate(v0, v1, v2, c0, c1, c2, v1.x, v1.y) == c1
    ensures Interpolate(v0, v1, v2, c0, c1, c2, v2.x, v2.y) == c2
  {
    var area := SignedArea(v0, v1, v2);
    var a := Abs(area);
    EdgesAtVertex(v0, v1, v2);
    EdgesAtVertex(v1, v2, v0);
    EdgesAtVertex(v2, v0, v1);
    assert SignedArea(v1, v2, v0) == area == SignedArea(v2, v0, v1);
    CDivExact(a, c0);
    CDivExact(a, c1);
    CDivExact(a, c2);
  }

  lemma EdgesAtVertex(v0: Vertex, v1: Vertex, v2: Vertex)
    ensures EdgeFn(v1, v2, v0.x, v0.y) == SignedArea(v0, v1, v2)
    ensures EdgeFn(v2, v0, v0.x, v0.y) == 0 == EdgeFn(v0, v1, v0.x, v0.y)
  {
  }

  // ---- integer widths -------------------------------------------------------

  function Signed16(h: int): int
    requires 0 <= h < 0x10000
  {
    if h >= 0x8000 then h - 0x10000 else h
  }

  /** A vertex from its coordinate, colour and texture words and the drawing offset. */
  function MakeVertex(coord: int, colour: int, tex: int, offX: int, offY: int): Vertex
    requires 0 <= coord < 0x1_0000_0000 && 0 <= colour < 0x1_0000_0000 && 0 <= tex < 0x1_0000_0000
  {
    Vertex(Signed16(coord % 0x10000) + offX, Signed16(coord / 0x10000) + offY,
           colour % 0x100, colour / 0x100 % 0x100, colour / 0x10000 % 0x100,
           tex % 0x100, tex / 0x100 % 0x100)
  }

  /** The range of every vertex a command can produce: signed 16-bit coordinates
      plus an offset of -1024..1023, byte attributes. */
  predicate CommandVertex(v: Vertex) {
    && -0x8400 <= v.x < 0x8400 && -0x8400 <= v.y < 0x8400
    && 0 <= v.r < 0x100 && 0 <= v.g < 0x100 && 0 <= v.b < 0x100 && 0 <= v.u < 0x100 && 0 <= v.v < 0x100
  }

  lemma MakeVertexInRange(coord: int, colour: int, tex: int, offX: int, offY: int)
    requires 0 <= coord < 0x1_0000_0000 && 0 <= colour < 0x1_0000_0000 && 0 <= tex < 0x1_0000_0000
    requires -1024 <= offX < 1024 && -1024 <= offY < 1024
    ensures CommandVertex(MakeVertex(coord, colour, tex, offX, offY))
  {
  }

  /** The low half of the coordinate word is x and the high half y, both signed and
      moved by the offset; colours are red, green, blue from the low byte up, texture
      coordinates u, then v. */
  lemma MakeVertexFields(coord: int, colour: int, tex: int, offX: int, offY: int)
    requires 0 <= coord < 0x1_0000_0000 && 0 <= colour < 0x1_0000_0000 && 0 <= tex < 0x1_0000_0000
    ensures var v := MakeVertex(coord, colour, tex, offX, offY);
      var x, y := v.x - offX, v.y - offY;
      && -0x8000 <= x < 0x8000 && -0x8000 <= y < 0x8000
      && (coord - x) % 0x10000 == 0 && (coord / 0x10000 - y) % 0x10000 == 0
      && colour % 0x1000000 == v.r + 0x100 * v.g + 0x10000 * v.b && tex % 0x10000 == v.u + 0x100 * v.v
  {
    var q := coord / 0x10000;
    assert coord == q * 0x10000 + coord % 0x10000;
    DivModUnique(0x10000, q, 0);
    DivModUnique(0x10000, q + 1, 0);
    ThreeBytes(colour);
    ThreeBytes(tex);
  }

  lemma ThreeBytes(v: nat)
    ensures v % 0x1000000 == v % 0x100 + 0x100 * (v / 0x100 % 0x100) + 0x10000 * (v / 0x10000 % 0x100)
    ensures v % 0x10000 == v % 0x100 + 0x100 * (v / 0x100 % 0x100)
  {
    DivTwice(v, 0x100, 0x100);
    var a := v / 0x100;
    var b, c := a / 0x100, a / 0x100 / 0x100;
    assert v == 0x100 * (0x100 * (0x100 * c + b % 0x100) + a % 0x100) + v % 0x100;
    DivModUnique(0x1000000, c, v % 0x100 + 0x100 * (a % 0x100) + 0x10000 * (b % 0x100));
    DivModUnique(0x10000, b, v % 0x100 + 0x100 * (a % 0x100));
  }

  lemma ProductBound(p: int, q: int, m: int, n: int)
    requires -m <= p <= m && -n <= q <= n
    ensures -(m * n) <= p * q <= m * n
  {
    assert (m - p) * (n + q) >= 0 && (m + p) * (n - q) >= 0;
    assert (m - p) * (n - q) >= 0 && (m + p) * (n + q) >= 0;
  }

  lemma EdgeBound(a: Vertex, b: Vertex, px: int, py: int, c: int)
    requires CommandVertex(a) && CommandVertex(b)
    requires -0x8400 <= px < 0x8400 && -0x8400 <= py < 0x8400 && 0 <= c < 0x100
    ensures -0x2_2080_0000 <= EdgeFn(a, b, px, py) <= 0x2_2080_0000
    ensures -0x220_8000_0000 <= EdgeFn(a, b, px, py) * c <= 0x220_8000_0000
  {
    ProductBound(b.x - a.x, py - a.y, 0x10800, 0x10800);
    ProductBound(b.y - a.y, px - a.x, 0x10800, 0x10800);
    ProductBound(EdgeFn(a, b, px, py), c, 0x2_2080_0000, 0x100);
  }

  /** Edge values of command vertices stay far inside 64 bits, and so do the
      three-term sums that the interpolation divides. */
  lemma EdgeFitsInt64(v0: Vertex, v1: Vertex, v2: Vertex, px: int, py: int, c0: int, c1: int, c2: int)
    requires CommandVertex(v0) && CommandVertex(v1) && CommandVertex(v2)
    requires -0x8400 <= px < 0x8400 && -0x8400 <= py < 0x8400
    requires 0 <= c0 < 0x100 && 0 <= c1 < 0x100 && 0 <= c2 < 0x100
    ensures var area := SignedArea(v0, v1, v2);
      var s0, s1, s2 := Weight(area, v1, v2, px, py), Weight(area, v2, v0, px, py), Weight(area, v0, v1, px, py);
      && -0x2_2080_0000 <= area <= 0x2_2080_0000
      && -0x2_2080_0000 <= s0 <= 0x2_2080_0000 && -0x2_2080_0000 <= s1 <= 0x2_2080_0000
      && -0x2_2080_0000 <= s2 <= 0x2_2080_0000
      && -0x8000_0000_0000_0000 < -0x661_8000_0000 <= s0 * c0 + s1 * c1 + s2 * c2 <= 0x661_8000_0000
  {
    EdgeBound(v0, v1, v2.x, v2.y, 0);
    EdgeBound(v1, v2, px, py, c0);
    EdgeBound(v2, v0, px, py, c1);
    EdgeBound(v0, v1, px, py, c2);
    hide EdgeFn;
    var area := SignedArea(v0, v1, v2);
    Negated(EdgeFn(v1, v2, px, py), c0);
    Negated(EdgeFn(v2, v0, px, py), c1);
    Negated(EdgeFn(v0, v1, px, py), c2);
  }

  lemma Negated(e: int, c: int)
    ensures -e * c == -(e * c)
  {
  }

  /** Every channel of every emitted pixel is a byte again, so the narrowing to 32
      bits after the division loses nothing. */
  lemma ShadeIsBytes(v0: Vertex, v1: Vertex, v2: Vertex, textured: bool, x: int, y: int)
    requires CommandVertex(v0) && CommandVertex(v1) && CommandVertex(v2)
    requires SignedArea(v0, v1, v2) != 0 && Covered(v0, v1, v2, x, y)
    ensures var p := Shade(v0, v1, v2, textured, x, y);
      0 <= p.r < 0x100 && 0 <= p.g < 0x100 && 0 <= p.b < 0x100 && 0 <= p.u < 0x100 && 0 <= p.v < 0x100
  {
    InterpolationBounded(v0, v1, v2, v0.r, v1.r, v2.r, x, y);
    InterpolationBounded(v0, v1, v2, v0.g, v1.g, v2.g, x, y);
    InterpolationBounded(v0, v1, v2, v0.b, v1.b, v2.b, x, y);
    InterpolationBounded(v0, v1, v2, v0.u, v1.u, v2.u, x, y);
    InterpolationBounded(v0, v1, v2, v0.v, v1.v, v2.v, x, y);
  }

  // ---- vertex order ---------------------------------------------------------

  /** Reversing the winding keeps the pixel set and every shaded value. */
  lemma WindingIrrelevant(v0: Vertex, v1: Vertex, v2: Vertex, textured: bool, x: int, y: int)
    ensures Skipped(v0, v1, v2) == Skipped(v1, v0, v2)
    ensures Covered(v0, v1, v2, x, y) == Covered(v1, v0, v2, x, y)
    ensures !Skipped(v0, v1, v2) ==> Shade(v0, v1, v2, textured, x, y) == Shade(v1, v0, v2, textured, x, y)
  {
    assert SignedArea(v0, v1, v2) == -SignedArea(v1, v0, v2);
    EdgeReversed(v0, v1, x, y);
    EdgeReversed(v1, v2, x, y);
    EdgeReversed(v2, v0, x, y);
  }

  lemma EdgeReversed(a: Vertex, b: Vertex, x: int, y: int)
    ensures EdgeFn(a, b, x, y) == -EdgeFn(b, a, x, y)
  {
  }

  /** So does rotating the vertex list; with WindingIrrelevant, any permutation. */
  lemma RotationIrrelevant(v0: Vertex, v1: Vertex, v2: Vertex, textured: bool, x: int, y: int)
    ensures Skipped(v0, v1, v2) == Skipped(v1, v2, v0)
    ensures Covered(v0, v1, v2, x, y) == Covered(v1, v2, v0, x, y)
    ensures !Skipped(v0, v1, v2) ==> Shade(v0, v1, v2, textured, x, y) == Shade(v1, v2, v0, textured, x, y)
  {
    hide EdgeFn, SignedArea, CDiv;
    AreaRotates(v0, v1, v2);
  }

  lemma AreaRotates(v0: Vertex, v1: Vertex, v2: Vertex)
    ensures SignedArea(v0, v1, v2) == SignedArea(v1, v2, v0)
  {
  }

  // ---- what is drawn, without the edge test ---------------------------------

  /** (x, y) is the weighted mean of the vertices. */
  predicate IsMean(s0: int, s1: int, s2: int, v0: Vertex, v1: Vertex, v2: Vertex, x: int, y: int) {
    && s0 >= 0 && s1 >= 0 && s2 >= 0 && s0 + s1 + s2 > 0
    && s0 * v0.x + s1 * v1.x + s2 * v2.x == (s0 + s1 + s2) * x
    && s0 * v0.y + s1 * v1.y + s2 * v2.y == (s0 + s1 + s2) * y
  }

  /** (x, y) lies in the convex hull of the vertices. */
  ghost predicate InHull(v0: Vertex, v1: Vertex, v2: Vertex, x: int, y: int) {
    exists s0, s1, s2 :: IsMean(s0, s1, s2, v0, v1, v2, x, y)
  }

  /** An edge value of a mean is the mean of the vertices' edge values. */
  lemma EdgeOfMean(s0: int, s1: int, s2: int, v0: Vertex, v1: Vertex, v2: Vertex, x: int, y: int)
    requires IsMean(s0, s1, s2, v0, v1, v2, x, y)
    ensures (s0 + s1 + s2) * EdgeFn(v1, v2, x, y) == s0 * SignedArea(v0, v1, v2)
  {
    hide EdgeFn, SignedArea;
    var dx, dy := v2.x - v1.x, v2.y - v1.y;
    MeanFrom(s0, s1, s2, v0.x, v1.x, v2.x, x);
    MeanFrom(s0, s1, s2, v0.y, v1.y, v2.y, y);
    hide IsMean;
    CrossOfMean(s0 + s1 + s2, s0, s2, x - v1.x, y - v1.y, v0.x - v1.x, v0.y - v1.y, dx, dy);
    EdgeFromCorner(v1, v2, x, y);
    AreaFrom(v0, v1, v2);
  }

  lemma MeanFrom(s0: int, s1: int, s2: int, c0: int, c1: int, c2: int, c: int)
    requires s0 * c0 + s1 * c1 + s2 * c2 == (s0 + s1 + s2) * c
    ensures (s0 + s1 + s2) * (c - c1) == s0 * (c0 - c1) + s2 * (c2 - c1)
  {
  }

  lemma AreaFrom(v0: Vertex, v1: Vertex, v2: Vertex)
    ensures SignedArea(v0, v1, v2) == (v2.x - v1.x) * (v0.y - v1.y) - (v2.y - v1.y) * (v0.x - v1.x)
  {
  }

  lemma CrossOfMean(a: int, s: int, t: int, m: int, n: int, p: int, q: int, dx: int, dy: int)
    requires a * m == s * p + t * dx && a * n == s * q + t * dy
    ensures a * (dx * n - dy * m) == s * (dx * q - dy * p)
  {
    assert a * (dx * n - dy * m) == dx * (a * n) - dy * (a * m);
    assert dx * (s * q + t * dy) == s * (dx * q) + t * (dx * dy);
    assert dy * (s * p + t * dx) == s * (dy * p) + t * (dx * dy);
  }

  lemma ScaledSign(a: int, e: int, s: int, area: int)
    requires a > 0 && s >= 0 && a * e == s * area
    ensures area > 0 ==> e >= 0
    ensures area < 0 ==> e <= 0
  {
    if area > 0 {
      assert s * area >= 0;
      CancelFactor(a, -1, e);
    } else if area < 0 {
      assert s * -area >= 0;
      CancelFactor(a, e, 1);
    }
  }

  /** The inclusive edge test finds the closed triangle: the points that are a mean
      of the vertices. */
  lemma CoveredIsHull(v0: Vertex, v1: Vertex, v2: Vertex, x: int, y: int)
    requires SignedArea(v0, v1, v2) != 0
    ensures Covered(v0, v1, v2, x, y) <==> InHull(v0, v1, v2, x, y)
  {
    hide EdgeFn, SignedArea, Covered;
    var area := SignedArea(v0, v1, v2);
    CoveredSign(v0, v1, v2, x, y);
    if Covered(v0, v1, v2, x, y) {
      CoveredMean(v0, v1, v2, x, y);
    }
    if InHull(v0, v1, v2, x, y) {
      var s0, s1, s2 :| IsMean(s0, s1, s2, v0, v1, v2, x, y);
      hide IsMean;
      HullSigns(s0, s1, s2, v0, v1, v2, x, y);
    }
  }

  lemma HullSigns(s0: int, s1: int, s2: int, v0: Vertex, v1: Vertex, v2: Vertex, x: int, y: int)
    requires IsMean(s0, s1, s2, v0, v1, v2, x, y)
    ensures SignedArea(v0, v1, v2) > 0 ==>
      EdgeFn(v1, v2, x, y) >= 0 && EdgeFn(v2, v0, x, y) >= 0 && EdgeFn(v0, v1, x, y) >= 0
    ensures SignedArea(v0, v1, v2) < 0 ==>
      EdgeFn(v1, v2, x, y) <= 0 && EdgeFn(v2, v0, x, y) <= 0 && EdgeFn(v0, v1, x, y) <= 0
  {
    hide EdgeFn, SignedArea;
    var a, area := s0 + s1 + s2, SignedArea(v0, v1, v2);
    AreaRotates(v0, v1, v2);
    AreaRotates(v1, v2, v0);
    EdgeOfMean(s0, s1, s2, v0, v1, v2, x, y);
    EdgeOfMean(s1, s2, s0, v1, v2, v0, x, y);
    EdgeOfMean(s2, s0, s1, v2, v0, v1, x, y);
    ScaledSign(a, EdgeFn(v1, v2, x, y), s0, area);
    ScaledSign(a, EdgeFn(v2, v0, x, y), s1, area);
    ScaledSign(a, EdgeFn(v0, v1, x, y), s2, area);
  }

  lemma CoveredMean(v0: Vertex, v1: Vertex, v2: Vertex, x: int, y: int)
    requires SignedArea(v0, v1, v2) != 0 && Covered(v0, v1, v2, x, y)
    ensures InHull(v0, v1, v2, x, y)
  {
    hide EdgeFn, SignedArea, Covered;
    var area := SignedArea(v0, v1, v2);
    var w0, w1, w2 := EdgeFn(v1, v2, x, y), EdgeFn(v2, v0, x, y), EdgeFn(v0, v1, x, y);
    CoveredSign(v0, v1, v2, x, y);
    EdgesSumToArea(v0, v1, v2, x, y);
    Barycentric(v0, v1, v2, x, y);
    if area > 0 {
      assert IsMean(w0, w1, w2, v0, v1, v2, x, y);
    } else {
      SignAdjusted(area, w0, w1, w2, v0.x, v1.x, v2.x, x);
      SignAdjusted(area, w0, w1, w2, v0.y, v1.y, v2.y, y);
      assert IsMean(-w0, -w1, -w2, v0, v1, v2, x, y);
    }
  }

  /** No two vertices lie further apart than 1023 columns or 511 lines. */
  predicate Small(v0: Vertex, v1: Vertex, v2: Vertex) {
    && -1023 <= v0.x - v1.x <= 1023 && -1023 <= v1.x - v2.x <= 1023 && -1023 <= v2.x - v0.x <= 1023
    && -511 <= v0.y - v1.y <= 511 && -511 <= v1.y - v2.y <= 511 && -511 <= v2.y - v0.y <= 511
  }

  /** The quotient p of a sum by a, rounded down. */
  predicate Quotient(p: int, a: int, sum: int) {
    a * p <= sum < a * p + a
  }

  /** Everything that is drawn: the points of the drawing area in the hull of a
      triangle that is neither degenerate nor too large, and no others; each plotted
      once; and each channel the mean of that channel at the vertices, weighted by
      the edge values opposite them and rounded down. */
  lemma DrawingMeans(out: seq<Pixel>, ar: Area, v0: Vertex, v1: Vertex, v2: Vertex, textured: bool, x: int, y: int)
    requires IsDrawing(out, ar, v0, v1, v2, textured)
    requires v0.r >= 0 && v0.g >= 0 && v0.b >= 0 && v0.u >= 0 && v0.v >= 0
    requires v1.r >= 0 && v1.g >= 0 && v1.b >= 0 && v1.u >= 0 && v1.v >= 0
    requires v2.r >= 0 && v2.g >= 0 && v2.b >= 0 && v2.u >= 0 && v2.v >= 0
    ensures var area := EdgeFn(v0, v1, v2.x, v2.y);
      Plots(out, x, y) ==
        if area != 0 && Small(v0, v1, v2) && ar.x1 <= x <= ar.x2 && ar.y1 <= y <= ar.y2 && InHull(v0, v1, v2, x, y)
        then 1 else 0
    ensures forall p :: p in out && p.x == x && p.y == y ==>
      var area := EdgeFn(v0, v1, v2.x, v2.y);
      var sign := if area < 0 then -1 else 1;
      var s0, s1, s2 := sign * EdgeFn(v1, v2, x, y), sign * EdgeFn(v2, v0, x, y), sign * EdgeFn(v0, v1, x, y);
      && Quotient(p.r, sign * area, s0 * v0.r + s1 * v1.r + s2 * v2.r)
      && Quotient(p.g, sign * area, s0 * v0.g + s1 * v1.g + s2 * v2.g)
      && Quotient(p.b, sign * area, s0 * v0.b + s1 * v1.b + s2 * v2.b)
      && if textured then Quotient(p.u, sign * area, s0 * v0.u + s1 * v1.u + s2 * v2.u)
           && Quotient(p.v, sign * area, s0 * v0.v + s1 * v1.v + s2 * v2.v)
         else p.u == 0 && p.v == 0
  {
    hide EdgeFn, Covered, Shade, Interpolate, Plots, InHull, IsDrawing, Quotient;
    SkippedOrSmall(v0, v1, v2);
    if Skipped(v0, v1, v2) {
      NothingPlotted(out, ar, v0, v1, v2, textured, x, y);
    } else {
      DrawingPlots(out, ar, v0, v1, v2, textured, x, y);
      CoveredIsHull(v0, v1, v2, x, y);
      forall p | p in out && p.x == x && p.y == y
        ensures Covered(v0, v1, v2, x, y) && p == Shade(v0, v1, v2, textured, x, y)
      {
        DrawnPixel(out, ar, v0, v1, v2, textured, p);
      }
      if Covered(v0, v1, v2, x, y) {
        ShadeMeans(v0, v1, v2, textured, x, y);
      }
    }
  }

  lemma SkippedOrSmall(v0: Vertex, v1: Vertex, v2: Vertex)
    ensures Skipped(v0, v1, v2) <==> EdgeFn(v0, v1, v2.x, v2.y) == 0 || !Small(v0, v1, v2)
  {
    hide EdgeFn;
  }

  lemma NothingPlotted(out: seq<Pixel>, ar: Area, v0: Vertex, v1: Vertex, v2: Vertex, textured: bool, x: int, y: int)
    requires Skipped(v0, v1, v2) && IsDrawing(out, ar, v0, v1, v2, textured)
    ensures out == [] && Plots(out, x, y) == 0
  {
  }

  lemma DrawnPixel(out: seq<Pixel>, ar: Area, v0: Vertex, v1: Vertex, v2: Vertex, textured: bool, p: Pixel)
    requires !Skipped(v0, v1, v2) && IsDrawing(out, ar, v0, v1, v2, textured) && p in out
    ensures Covered(v0, v1, v2, p.x, p.y) && p == Shade(v0, v1, v2, textured, p.x, p.y)
  {
    hide Covered, Shade;
  }

  lemma ShadeMeans(v0: Vertex, v1: Vertex, v2: Vertex, textured: bool, x: int, y: int)
    requires SignedArea(v0, v1, v2) != 0 && Covered(v0, v1, v2, x, y)
    requires v0.r >= 0 && v0.g >= 0 && v0.b >= 0 && v0.u >= 0 && v0.v >= 0
    requires v1.r >= 0 && v1.g >= 0 && v1.b >= 0 && v1.u >= 0 && v1.v >= 0
    requires v2.r >= 0 && v2.g >= 0 && v2.b >= 0 && v2.u >= 0 && v2.v >= 0
    ensures var area, p := EdgeFn(v0, v1, v2.x, v2.y), Shade(v0, v1, v2, textured, x, y);
      var sign := if area < 0 then -1 else 1;
      var s0, s1, s2 := sign * EdgeFn(v1, v2, x, y), sign * EdgeFn(v2, v0, x, y), sign * EdgeFn(v0, v1, x, y);
      && Quotient(p.r, sign * area, s0 * v0.r + s1 * v1.r + s2 * v2.r)
      && Quotient(p.g, sign * area, s0 * v0.g + s1 * v1.g + s2 * v2.g)
      && Quotient(p.b, sign * area, s0 * v0.b + s1 * v1.b + s2 * v2.b)
      && if textured then Quotient(p.u, sign * area, s0 * v0.u + s1 * v1.u + s2 * v2.u)
           && Quotient(p.v, sign * area, s0 * v0.v + s1 * v1.v + s2 * v2.v)
         else p.u == 0 && p.v == 0
  {
    hide EdgeFn, Covered, Interpolate, Quotient;
    InterpolationIsMean(v0, v1, v2, v0.r, v1.r, v2.r, x, y);
    InterpolationIsMean(v0, v1, v2, v0.g, v1.g, v2.g, x, y);
    InterpolationIsMean(v0, v1, v2, v0.b, v1.b, v2.b, x, y);
    InterpolationIsMean(v0, v1, v2, v0.u, v1.u, v2.u, x, y);
    InterpolationIsMean(v0, v1, v2, v0.v, v1.v, v2.v, x, y);
  }

  lemma InterpolationIsMean(v0: Vertex, v1: Vertex, v2: Vertex, c0: int, c1: int, c2: int, x: int, y: int)
    requires SignedArea(v0, v1, v2) != 0 && Covered(v0, v1, v2, x, y) && c0 >= 0 && c1 >= 0 && c2 >= 0
    ensures var area := EdgeFn(v0, v1, v2.x, v2.y);
      var sign := if area < 0 then -1 else 1;
      var s0, s1, s2 := sign * EdgeFn(v1, v2, x, y), sign * EdgeFn(v2, v0, x, y), sign * EdgeFn(v0, v1, x, y);
      Quotient(Interpolate(v0, v1, v2, c0, c1, c2, x, y), sign * area, s0 * c0 + s1 * c1 + s2 * c2)
  {
    WeightsPartition(v0, v1, v2, x, y);
    hide EdgeFn, Covered, CDiv;
    var area := SignedArea(v0, v1, v2);
    var s0, s1, s2 := Weight(area, v1, v2, x, y), Weight(area, v2, v0, x, y), Weight(area, v0, v1, x, y);
    WeightedBounds(s0, s1, s2, c0, c1, c2, 0, c0 + c1 + c2);
    CDivBracket(s0 * c0 + s1 * c1 + s2 * c2, Abs(area));
  }

  // ---- quadrilaterals -------------------------------------------------------

  lemma Expand(a: int, b: int, c: int, d: int)
    ensures (a - b) * (c - d) == a * c - a * d - b * c + b * d
  {
  }

  lemma Reorder(a: int, b: int, c: int, d: int)
    ensures (a * b) * (c * d) == (a * d) * (c * b) == (a * c) * (b * d)
  {
    assert (a * b) * (c * d) == a * (b * (c * d));
    assert (a * d) * (c * b) == a * (d * (c * b));
    assert (a * c) * (b * d) == a * (c * (b * d));
    assert b * (c * d) == c * (b * d) == d * (c * b);
  }

  /** For (m, n) in proportion to (p, q). */
  lemma Proportion(bx: int, bz: int, dx: int, dy: int, p: int, q: int, m: int, n: int)
    requires p * n == q * m
    ensures (bx * n - bz * m) * (p * dy - q * dx) == (dy * m - dx * n) * (bx * q - bz * p)
  {
    Expand(bx * n, bz * m, p * dy, q * dx);
    Expand(dy * m, dx * n, bx * q, bz * p);
    Reorder(bx, n, p, dy);
    Reorder(dy, m, bx, q);
    Reorder(bz, m, q, dx);
    Reorder(dx, n, bz, p);
    Reorder(bx, n, q, dx);
    Reorder(dx, n, bx, q);
    Reorder(bz, m, p, dy);
    Reorder(dy, m, bz, p);
    assert (bx * n) * (p * dy) == (bx * dy) * (p * n);
    assert (dy * m) * (bx * q) == (dy * bx) * (m * q);
    assert (bz * m) * (q * dx) == (bz * dx) * (q * m);
    assert (dx * n) * (bz * p) == (dx * bz) * (n * p);
    assert (bx * n) * (q * dx) == (bx * q) * (n * dx) && (dx * n) * (bx * q) == (bx * q) * (n * dx);
    assert (bz * m) * (p * dy) == (bz * p) * (m * dy) && (dy * m) * (bz * p) == (bz * p) * (m * dy);
  }

  lemma EdgeFromCorner(a: Vertex, b: Vertex, x: int, y: int)
    ensures EdgeFn(a, b, x, y) == (b.x - a.x) * (y - a.y) - (b.y - a.y) * (x - a.x)
    ensures EdgeFn(b, a, x, y) == (b.y - a.y) * (x - a.x) - (b.x - a.x) * (y - a.y)
  {
  }

  /** On the line through a and c, the edge values of the two triangles that share
      a-c are in proportion to their areas. */
  lemma SharedEdge(a: Vertex, b: Vertex, c: Vertex, d: Vertex, x: int, y: int)
    requires EdgeFn(c, a, x, y) == 0
    ensures EdgeFn(a, b, x, y) * SignedArea(a, c, d) == EdgeFn(d, a, x, y) * SignedArea(a, b, c)
    ensures EdgeFn(b, c, x, y) * SignedArea(a, c, d) == EdgeFn(c, d, x, y) * SignedArea(a, b, c)
  {
    hide EdgeFn;
    var p, q, m, n := c.x - a.x, c.y - a.y, x - a.x, y - a.y;
    EdgeFromCorner(a, c, x, y);
    EdgeFromCorner(a, b, x, y);
    EdgeFromCorner(a, d, x, y);
    EdgeFromCorner(a, b, c.x, c.y);
    EdgeFromCorner(a, c, d.x, d.y);
    Proportion(b.x - a.x, b.y - a.y, d.x - a.x, d.y - a.y, p, q, m, n);
    EdgesSumToArea(a, b, c, x, y);
    EdgesSumToArea(a, c, d, x, y);
    Complement(EdgeFn(a, b, x, y), SignedArea(a, b, c), EdgeFn(d, a, x, y), SignedArea(a, c, d));
  }

  lemma Complement(e: int, area: int, f: int, other: int)
    requires e * other == f * area
    ensures (area - e) * other == (other - f) * area
  {
  }

  lemma SameSign(e: int, other: int, f: int, area: int)
    requires e * other == f * area
    requires (area > 0 && other > 0) || (area < 0 && other < 0)
    ensures e >= 0 <==> f >= 0
    ensures e <= 0 <==> f <= 0
  {
    if area > 0 {
      assert e > 0 ==> e * other > 0;
      assert e < 0 ==> -e * other > 0;
      assert f > 0 ==> f * area > 0;
      assert f < 0 ==> -f * area > 0;
    } else {
      assert e > 0 ==> e * -other > 0;
      assert e < 0 ==> -e * -other > 0;
      assert f > 0 ==> f * -area > 0;
      assert f < 0 ==> -f * -area > 0;
    }
  }

  /** The edge values of a covered point have the sign of the area. */
  lemma CoveredSign(v0: Vertex, v1: Vertex, v2: Vertex, x: int, y: int)
    requires SignedArea(v0, v1, v2) != 0
    ensures var w0, w1, w2 := EdgeFn(v1, v2, x, y), EdgeFn(v2, v0, x, y), EdgeFn(v0, v1, x, y);
      Covered(v0, v1, v2, x, y) <==>
        if SignedArea(v0, v1, v2) > 0 then w0 >= 0 && w1 >= 0 && w2 >= 0 else w0 <= 0 && w1 <= 0 && w2 <= 0
  {
    EdgesSumToArea(v0, v1, v2, x, y);
  }

  /** The two triangles of a quadrilateral v1 v2 v3 v4 with v2 and v4 on opposite
      sides of v1-v3 overlap in the points of that diagonal and in no others. */
  lemma QuadOverlap(v1: Vertex, v2: Vertex, v3: Vertex, v4: Vertex, x: int, y: int)
    requires (SignedArea(v1, v2, v3) > 0 && SignedArea(v1, v3, v4) > 0)
      || (SignedArea(v1, v2, v3) < 0 && SignedArea(v1, v3, v4) < 0)
    ensures Covered(v1, v2, v3, x, y) && Covered(v1, v3, v4, x, y)
      <==> (Covered(v1, v2, v3, x, y) || Covered(v1, v3, v4, x, y)) && EdgeFn(v1, v3, x, y) == 0
  {
    CoveredSign(v1, v2, v3, x, y);
    CoveredSign(v1, v3, v4, x, y);
    EdgeReversed(v1, v3, x, y);
    if EdgeFn(v1, v3, x, y) == 0 {
      SharedEdge(v1, v2, v3, v4, x, y);
      SameSign(EdgeFn(v1, v2, x, y), SignedArea(v1, v3, v4), EdgeFn(v4, v1, x, y), SignedArea(v1, v2, v3));
      SameSign(EdgeFn(v2, v3, x, y), SignedArea(v1, v3, v4), EdgeFn(v3, v4, x, y), SignedArea(v1, v2, v3));
    }
  }

  /** How often a point is plotted. */
  function Plots(ps: seq<Pixel>, x: int, y: int): nat {
    if ps == [] then 0
    else Plots(ps[..|ps| - 1], x, y) + if ps[|ps| - 1].x == x && ps[|ps| - 1].y == y then 1 else 0
  }

  lemma {:induction false} PlotsAppend(ps: seq<Pixel>, qs: seq<Pixel>, x: int, y: int)
    ensures Plots(ps + qs, x, y) == Plots(ps, x, y) + Plots(qs, x, y)
    decreases |qs|
  {
    if qs == [] {
      assert ps + qs == ps;
    } else {
      var n := |qs| - 1;
      assert (ps + qs)[..|ps| + n] == ps + qs[..n];
      PlotsAppend(ps, qs[..n], x, y);
    }
  }

  /** In scan order a point is plotted once if it is there at all. */
  lemma {:induction false} PlotsOnce(ps: seq<Pixel>, x: int, y: int)
    requires RowMajor(ps)
    ensures Plots(ps, x, y) == if exists p :: p in ps && p.x == x && p.y == y then 1 else 0
    decreases |ps|
  {
    if ps != [] {
      var n := |ps| - 1;
      var q := ps[n];
      PlotsOnce(ps[..n], x, y);
      assert ps == ps[..n] + [q];
      if q.x == x && q.y == y {
        assert q in ps;
        forall p | p in ps[..n]
          ensures !(p.x == x && p.y == y)
        {
          var i :| 0 <= i < n && ps[i] == p;
          assert Before(ps[i], ps[n]);
        }
      }
    }
  }

  lemma DrawingPlots(out: seq<Pixel>, ar: Area, v0: Vertex, v1: Vertex, v2: Vertex, textured: bool, x: int, y: int)
    requires !Skipped(v0, v1, v2) && IsDrawing(out, ar, v0, v1, v2, textured)
    ensures Plots(out, x, y) == if InArea(ar, x, y) && Covered(v0, v1, v2, x, y) then 1 else 0
  {
    hide Covered, EdgeFn;
    PlotsOnce(out, x, y);
    if InArea(ar, x, y) && Covered(v0, v1, v2, x, y) {
      var p := Shade(v0, v1, v2, textured, x, y);
      assert p in out && p.x == x && p.y == y;
    }
  }

  /** A quadrilateral is drawn as its two triangles, one after the other: each point
      of the drawing area that either covers is plotted once, those on the shared
      diagonal twice. */
  lemma QuadDrawing(ar: Area, v1: Vertex, v2: Vertex, v3: Vertex, v4: Vertex, textured: bool,
                    first: seq<Pixel>, second: seq<Pixel>, x: int, y: int)
    requires !Skipped(v1, v2, v3) && !Skipped(v1, v3, v4)
    requires (SignedArea(v1, v2, v3) > 0) == (SignedArea(v1, v3, v4) > 0)
    requires IsDrawing(first, ar, v1, v2, v3, textured) && IsDrawing(second, ar, v1, v3, v4, textured)
    ensures Plots(first + second, x, y) ==
      if !(InArea(ar, x, y) && (Covered(v1, v2, v3, x, y) || Covered(v1, v3, v4, x, y))) then 0
      else if EdgeFn(v1, v3, x, y) == 0 then 2 else 1
  {
    hide EdgeFn, Covered, IsDrawing, InArea;
    QuadOverlap(v1, v2, v3, v4, x, y);
    DrawingPlots(first, ar, v1, v2, v3, textured, x, y);
    DrawingPlots(second, ar, v1, v3, v4, textured, x, y);
    PlotsAppend(first, second, x, y);
  }

  // ---- the scan loop --------------------------------------------------------

  /** `out` holds exactly one shaded pixel for each covered point of the drawing
      area and nothing else. */
  ghost predicate ExactlyCovers(out: seq<Pixel>, ar: Area, v0: Vertex, v1: Vertex, v2: Vertex, textured: bool)
    requires SignedArea(v0, v1, v2) != 0
  {
    && RowMajor(out)
    && (forall p :: p in out ==>
          InArea(ar, p.x, p.y) && Covered(v0, v1, v2, p.x, p.y) && p == Shade(v0, v1, v2, textured, p.x, p.y))
    && (forall x, y :: InArea(ar, x, y) && Covered(v0, v1, v2, x, y) ==> Shade(v0, v1, v2, textured, x, y) in out)
  }

  /** Strictly ordered lists with the same elements are the same list. */
  lemma {:induction false} RowMajorUnique(ps: seq<Pixel>, qs: seq<Pixel>)
    requires RowMajor(ps) && RowMajor(qs)
    requires forall p :: p in ps <==> p in qs
    ensures ps == qs
  {
    FirstIsMember(qs);
    if ps != [] {
      FirstIsMember(ps);
      MemberAfterFirst(ps, qs[0]);
      MemberAfterFirst(qs, ps[0]);
      forall p
        ensures p in ps[1..] <==> p in qs[1..]
      {
        SameTail(ps, qs, p);
        SameTail(qs, ps, p);
      }
      RowMajorUnique(ps[1..], qs[1..]);
      assert ps == [ps[0]] + ps[1..] && qs == [qs[0]] + qs[1..];
    }
  }

  lemma MemberAfterFirst(ps: seq<Pixel>, q: Pixel)
    requires RowMajor(ps) && q in ps
    ensures q == ps[0] || Before(ps[0], q)
  {
    var i :| 0 <= i < |ps| && ps[i] == q;
    if i > 0 {
      assert Before(ps[0], ps[i]);
    }
  }

  lemma FirstIsMember(ps: seq<Pixel>)
    ensures ps == [] || ps[0] in ps
  {
  }

  lemma SameTail(ps: seq<Pixel>, qs: seq<Pixel>, p: Pixel)
    requires ps != [] && qs != [] && ps[0] == qs[0]
    requires RowMajor(ps) && forall q :: q in ps ==> q in qs
    ensures p in ps[1..] ==> p in qs[1..]
  {
    if p in ps[1..] {
      var i :| 0 <= i < |ps| - 1 && ps[1..][i] == p;
      assert Before(ps[0], ps[i + 1]);
      assert p in qs && p != qs[0];
      var j :| 0 <= j < |qs| && qs[j] == p;
      assert qs[1..][j - 1] == p;
    }
  }

  /** What the scan loop must emit. */
  ghost predicate IsDrawing(out: seq<Pixel>, ar: Area, v0: Vertex, v1: Vertex, v2: Vertex, textured: bool) {
    if Skipped(v0, v1, v2) then out == [] else ExactlyCovers(out, ar, v0, v1, v2, textured)
  }

  lemma SameCoverageSameDrawing(ps: seq<Pixel>, qs: seq<Pixel>, ar: Area, textured: bool,
                                v0: Vertex, v1: Vertex, v2: Vertex, t0: Vertex, t1: Vertex, t2: Vertex)
    requires SignedArea(v0, v1, v2) != 0 && SignedArea(t0, t1, t2) != 0
    requires ExactlyCovers(ps, ar, v0, v1, v2, textured) && ExactlyCovers(qs, ar, t0, t1, t2, textured)
    requires forall x, y :: Covered(v0, v1, v2, x, y) == Covered(t0, t1, t2, x, y)
    requires forall x, y :: Shade(v0, v1, v2, textured, x, y) == Shade(t0, t1, t2, textured, x, y)
    ensures ps == qs
  {
    forall p
      ensures p in ps <==> p in qs
    {
    }
    RowMajorUnique(ps, qs);
  }

  /** The contract of DrawTri determines its result, and the order in which a
      command lists the three vertices does not change what is drawn. */
  lemma DrawingIgnoresVertexOrder(ar: Area, v0: Vertex, v1: Vertex, v2: Vertex, textured: bool,
                                  out: seq<Pixel>, swapped: seq<Pixel>, rotated: seq<Pixel>)
    requires IsDrawing(out, ar, v0, v1, v2, textured)
    requires IsDrawing(swapped, ar, v1, v0, v2, textured)
    requires IsDrawing(rotated, ar, v1, v2, v0, textured)
    ensures out == swapped == rotated
  {
    WindingIrrelevant(v0, v1, v2, textured, 0, 0);
    RotationIrrelevant(v0, v1, v2, textured, 0, 0);
    if !Skipped(v0, v1, v2) {
      forall x, y
        ensures Covered(v0, v1, v2, x, y) == Covered(v1, v0, v2, x, y)
        ensures Shade(v0, v1, v2, textured, x, y) == Shade(v1, v0, v2, textured, x, y)
      {
        WindingIrrelevant(v0, v1, v2, textured, x, y);
      }
      SameCoverageSameDrawing(out, swapped, ar, textured, v0, v1, v2, v1, v0, v2);
      forall x, y
        ensures Covered(v0, v1, v2, x, y) == Covered(v1, v2, v0, x, y)
        ensures Shade(v0, v1, v2, textured, x, y) == Shade(v1, v2, v0, textured, x, y)
      {
        RotationIrrelevant(v0, v1, v2, textured, x, y);
      }
      SameCoverageSameDrawing(out, rotated, ar, textured, v0, v1, v2, v1, v2, v0);
    }
  }

  method Plot(v0: Vertex, v1: Vertex, v2: Vertex, textured: bool, x: int, y: int,
              area: int, w0: int, w1: int, w2: int) returns (p: Pixel)
    requires area == SignedArea(v0, v1, v2) != 0
    requires w0 == EdgeFn(v1, v2, x, y) && w1 == EdgeFn(v2, v0, x, y) && w2 == EdgeFn(v0, v1, x, y)
    ensures p == Shade(v0, v1, v2, textured, x, y) && p.x == x && p.y == y
  {
    var a := if area < 0 then -area else area;
    var s0 := if area < 0 then -w0 else w0;
    var s1 := if area < 0 then -w1 else w1;
    var s2 := if area < 0 then -w2 else w2;
    var r8 := CDiv(s0 * v0.r + s1 * v1.r + s2 * v2.r, a);
    var g8 := CDiv(s0 * v0.g + s1 * v1.g + s2 * v2.g, a);
    var b8 := CDiv(s0 * v0.b + s1 * v1.b + s2 * v2.b, a);
    var u, v := 0, 0;
    if textured {
      u := CDiv(s0 * v0.u + s1 * v1.u + s2 * v2.u, a);
      v := CDiv(s0 * v0.v + s1 * v1.v + s2 * v2.v, a);
    }
    p := Pixel(x, y, r8, g8, b8, u, v);
  }

  method DrawTri(ar: Area, v0: Vertex, v1: Vertex, v2: Vertex, textured: bool) returns (out: seq<Pixel>)
    ensures IsDrawing(out, ar, v0, v1, v2, textured)
  {
    hide EdgeFn, Shade, Covered, DrawnTo, Boxed, ExactlyCovers;
    out := [];
    var area := EdgeFn(v0, v1, v2.x, v2.y);
    if area == 0 {
      return;
    }
    var minx := if v0.x < v1.x then (if v0.x < v2.x then v0.x else v2.x) else (if v1.x < v2.x then v1.x else v2.x);
    var maxx := if v0.x > v1.x then (if v0.x > v2.x then v0.x else v2.x) else (if v1.x > v2.x then v1.x else v2.x);
    var miny := if v0.y < v1.y then (if v0.y < v2.y then v0.y else v2.y) else (if v1.y < v2.y then v1.y else v2.y);
    var maxy := if v0.y > v1.y then (if v0.y > v2.y then v0.y else v2.y) else (if v1.y > v2.y then v1.y else v2.y);
    if maxx - minx > 1023 || maxy - miny > 511 {
      return;
    }
    ClippedBox(ar, v0, v1, v2, minx, maxx, miny, maxy);
    if minx < ar.x1 { minx := ar.x1; }
    if miny < ar.y1 { miny := ar.y1; }
    if maxx > ar.x2 { maxx := ar.x2; }
    if maxy > ar.y2 { maxy := ar.y2; }

    NothingDrawn(ar, v0, v1, v2, textured, minx, maxx, miny, maxy);
    var y := miny;
    while y <= maxy
      invariant miny <= y && DrawnTo(out, ar, v0, v1, v2, textured, minx, y)
    {
      out := DrawRow(out, ar, v0, v1, v2, textured, area, minx, maxx, miny, maxy, y);
      y := y + 1;
    }
    AllDrawn(out, ar, v0, v1, v2, textured, minx, maxx, miny, maxy, y);
  }

  /** Every point to be plotted lies in the box. */
  ghost predicate Boxed(ar: Area, v0: Vertex, v1: Vertex, v2: Vertex, minx: int, maxx: int, miny: int, maxy: int) {
    forall x, y :: InArea(ar, x, y) && Covered(v0, v1, v2, x, y) ==> minx <= x <= maxx && miny <= y <= maxy
  }

  /** Clipping the bounding box to the drawing area loses no point. */
  lemma ClippedBox(ar: Area, v0: Vertex, v1: Vertex, v2: Vertex, minx: int, maxx: int, miny: int, maxy: int)
    requires SignedArea(v0, v1, v2) != 0
    requires minx == Min3(v0.x, v1.x, v2.x) && maxx == Max3(v0.x, v1.x, v2.x)
    requires miny == Min3(v0.y, v1.y, v2.y) && maxy == Max3(v0.y, v1.y, v2.y)
    ensures Boxed(ar, v0, v1, v2, if minx < ar.x1 then ar.x1 else minx, if maxx > ar.x2 then ar.x2 else maxx,
                  if miny < ar.y1 then ar.y1 else miny, if maxy > ar.y2 then ar.y2 else maxy)
  {
    hide Covered, SignedArea, Min3, Max3;
    forall x, y | Covered(v0, v1, v2, x, y)
      ensures minx <= x <= maxx && miny <= y <= maxy
    {
      CoveredInBox(v0, v1, v2, x, y);
    }
  }

  lemma NothingDrawn(ar: Area, v0: Vertex, v1: Vertex, v2: Vertex, textured: bool,
                     minx: int, maxx: int, miny: int, maxy: int)
    requires SignedArea(v0, v1, v2) != 0 && Boxed(ar, v0, v1, v2, minx, maxx, miny, maxy)
    ensures DrawnTo([], ar, v0, v1, v2, textured, minx, miny)
  {
    hide Covered, EdgeFn, Shade;
  }

  lemma AllDrawn(out: seq<Pixel>, ar: Area, v0: Vertex, v1: Vertex, v2: Vertex, textured: bool,
                 minx: int, maxx: int, miny: int, maxy: int, y: int)
    requires SignedArea(v0, v1, v2) != 0 && Boxed(ar, v0, v1, v2, minx, maxx, miny, maxy)
    requires DrawnTo(out, ar, v0, v1, v2, textured, minx, y) && y > maxy
    ensures ExactlyCovers(out, ar, v0, v1, v2, textured)
  {
    hide Covered, EdgeFn, Shade;
  }

  /** All of the drawing above line y, and that line's points left of x. */
  ghost predicate DrawnTo(out: seq<Pixel>, ar: Area, v0: Vertex, v1: Vertex, v2: Vertex, textured: bool, x: int, y: int)
    requires SignedArea(v0, v1, v2) != 0
  {
    && RowMajor(out)
    && (forall p :: p in out ==>
          (p.y < y || (p.y == y && p.x < x))
          && InArea(ar, p.x, p.y) && Covered(v0, v1, v2, p.x, p.y) && p == Shade(v0, v1, v2, textured, p.x, p.y))
    && (forall px, py :: InArea(ar, px, py) && (py < y || (py == y && px < x)) && Covered(v0, v1, v2, px, py) ==>
          Shade(v0, v1, v2, textured, px, py) in out)
  }

  /** One line of the box. */
  method DrawRow(done: seq<Pixel>, ar: Area, v0: Vertex, v1: Vertex, v2: Vertex, textured: bool,
                 area: int, minx: int, maxx: int, ghost miny: int, ghost maxy: int, y: int) returns (out: seq<Pixel>)
    requires area == SignedArea(v0, v1, v2) != 0
    requires minx >= ar.x1 && maxx <= ar.x2 && ar.y1 <= y <= ar.y2 && Boxed(ar, v0, v1, v2, minx, maxx, miny, maxy)
    requires DrawnTo(done, ar, v0, v1, v2, textured, minx, y)
    ensures DrawnTo(out, ar, v0, v1, v2, textured, minx, y + 1)
  {
    hide EdgeFn, Shade, DrawnTo, SignedArea, Boxed;
    out := done;
    var x := minx;
    while x <= maxx
      invariant minx <= x && DrawnTo(out, ar, v0, v1, v2, textured, x, y)
    {
      var w0 := EdgeFn(v1, v2, x, y);
      var w1 := EdgeFn(v2, v0, x, y);
      var w2 := EdgeFn(v0, v1, x, y);
      var inside := (w0 >= 0 && w1 >= 0 && w2 >= 0) || (w0 <= 0 && w1 <= 0 && w2 <= 0);
      NextPoint(out, ar, v0, v1, v2, textured, x, y);
      if inside {
        var p := Plot(v0, v1, v2, textured, x, y, area, w0, w1, w2);
        out := out + [p];
      }
      x := x + 1;
    }
    EndOfRow(out, ar, v0, v1, v2, textured, minx, maxx, miny, maxy, x, y);
  }

  lemma NextPoint(out: seq<Pixel>, ar: Area, v0: Vertex, v1: Vertex, v2: Vertex, textured: bool, x: int, y: int)
    requires SignedArea(v0, v1, v2) != 0 && InArea(ar, x, y)
    requires DrawnTo(out, ar, v0, v1, v2, textured, x, y)
    ensures DrawnTo(if Covered(v0, v1, v2, x, y) then out + [Shade(v0, v1, v2, textured, x, y)] else out,
                    ar, v0, v1, v2, textured, x + 1, y)
  {
    hide Covered, EdgeFn;
    ShadeAt(v0, v1, v2, textured, x, y);
    hide Shade;
  }

  lemma ShadeAt(v0: Vertex, v1: Vertex, v2: Vertex, textured: bool, x: int, y: int)
    requires SignedArea(v0, v1, v2) != 0
    ensures Shade(v0, v1, v2, textured, x, y).x == x && Shade(v0, v1, v2, textured, x, y).y == y
  {
  }

  lemma EndOfRow(out: seq<Pixel>, ar: Area, v0: Vertex, v1: Vertex, v2: Vertex, textured: bool,
                 minx: int, maxx: int, miny: int, maxy: int, x: int, y: int)
    requires SignedArea(v0, v1, v2) != 0 && DrawnTo(out, ar, v0, v1, v2, textured, x, y)
    requires Boxed(ar, v0, v1, v2, minx, maxx, miny, maxy) && minx <= x && maxx < x
    ensures DrawnTo(out, ar, v0, v1, v2, textured, minx, y + 1)
  {
    hide Covered, EdgeFn, Shade;
  }
}
