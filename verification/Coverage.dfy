// Which positions a radius search can find: the cells chosen by geohashGetAreasByRadius
// against the bounding box and the disc they are meant to cover.
module Coverage {
  import opened Arith
  import opened Morton
  import opened Geohash
  import opened GeoRadius

  /** The cell of a position at the step of a search is scanned. */
  ghost predicate Finds(ct: CoordType, g: GeoHashRadius, latitude: real, longitude: real)
    requires ct.OnMap(latitude, longitude)
  {
    Covered(g, Cell(latitude, ct.LatRange(), g.hash.step), Cell(longitude, ct.LonRange(), g.hash.step))
  }

  /** Every position of the world inside the bounding box is found. */
  ghost predicate BoxFound(ct: CoordType, g: GeoHashRadius, box: Box) {
    forall p, q | ct.InWorld(p, q) && box.Has(p, q) :: Finds(ct, g, p, q)
  }

  lemma FindsIsProduct(ct: CoordType, latitude: real, longitude: real, radius: real, p: real, q: real)
    requires ct.OnMap(latitude, longitude) && ct.OnMap(p, q)
    ensures var s := StepFor(radius);
      var b := BoundingBox(ct, latitude, longitude, radius);
      Finds(ct, Areas(ct, latitude, longitude, radius), p, q) <==>
        && AxisKeeps(Cell(latitude, ct.LatRange(), s), ct.LatRange(), s, b.minLat, b.maxLat, Cell(p, ct.LatRange(), s))
        && AxisKeeps(Cell(longitude, ct.LonRange(), s), ct.LonRange(), s, b.minLon, b.maxLon, Cell(q, ct.LonRange(), s))
  {
    var s := StepFor(radius);
    CoveredIsProduct(ct, CentreHash(ct, latitude, longitude, s), BoundingBox(ct, latitude, longitude, radius),
                     Cell(p, ct.LatRange(), s), Cell(q, ct.LonRange(), s));
  }

  /** The nine cells find the whole bounding box exactly when, on both axes, the box stays
      within one cell of the centre's. */
  lemma BoxFoundExactly(ct: CoordType, latitude: real, longitude: real, radius: real)
    requires ct.InWorld(latitude, longitude) && BoundingBox(ct, latitude, longitude, radius).Has(latitude, longitude)
    ensures var s := StepFor(radius);
      var b := BoundingBox(ct, latitude, longitude, radius);
      BoxFound(ct, Areas(ct, latitude, longitude, radius), b) <==>
        && Reaches(latitude, ct.LatRange(), s, b.minLat, b.maxLat)
        && Reaches(longitude, ct.LonRange(), s, b.minLon, b.maxLon)
  {
    var s := StepFor(radius);
    var b := BoundingBox(ct, latitude, longitude, radius);
    var g := Areas(ct, latitude, longitude, radius);
    AxisCoverage(latitude, ct.LatRange(), s, b.minLat, b.maxLat);
    AxisCoverage(longitude, ct.LonRange(), s, b.minLon, b.maxLon);
    if AxisCovered(latitude, ct.LatRange(), s, b.minLat, b.maxLat)
       && AxisCovered(longitude, ct.LonRange(), s, b.minLon, b.maxLon) {
      AxesFind(ct, latitude, longitude, radius);
    }
    if BoxFound(ct, g, b) {
      FoundAxes(ct, latitude, longitude, radius);
    }
  }

  lemma AxesFind(ct: CoordType, latitude: real, longitude: real, radius: real)
    requires ct.OnMap(latitude, longitude)
    requires AxisCovered(latitude, ct.LatRange(), StepFor(radius),
                         BoundingBox(ct, latitude, longitude, radius).minLat,
                         BoundingBox(ct, latitude, longitude, radius).maxLat)
    requires AxisCovered(longitude, ct.LonRange(), StepFor(radius),
                         BoundingBox(ct, latitude, longitude, radius).minLon,
                         BoundingBox(ct, latitude, longitude, radius).maxLon)
    ensures BoxFound(ct, Areas(ct, latitude, longitude, radius), BoundingBox(ct, latitude, longitude, radius))
  {
    forall p, q | ct.InWorld(p, q) && BoundingBox(ct, latitude, longitude, radius).Has(p, q)
      ensures Finds(ct, Areas(ct, latitude, longitude, radius), p, q)
    {
      FindsIsProduct(ct, latitude, longitude, radius, p, q);
    }
  }

  lemma FoundAxes(ct: CoordType, latitude: real, longitude: real, radius: real)
    requires ct.InWorld(latitude, longitude) && BoundingBox(ct, latitude, longitude, radius).Has(latitude, longitude)
    requires BoxFound(ct, Areas(ct, latitude, longitude, radius), BoundingBox(ct, latitude, longitude, radius))
    ensures AxisCovered(latitude, ct.LatRange(), StepFor(radius),
                        BoundingBox(ct, latitude, longitude, radius).minLat,
                        BoundingBox(ct, latitude, longitude, radius).maxLat)
    ensures AxisCovered(longitude, ct.LonRange(), StepFor(radius),
                        BoundingBox(ct, latitude, longitude, radius).minLon,
                        BoundingBox(ct, latitude, longitude, radius).maxLon)
  {
    var s := StepFor(radius);
    var b := BoundingBox(ct, latitude, longitude, radius);
    forall p | ct.LatRange().Inside(p) && b.minLat <= p <= b.maxLat
      ensures AxisKeeps(Cell(latitude, ct.LatRange(), s), ct.LatRange(), s, b.minLat, b.maxLat, Cell(p, ct.LatRange(), s))
    {
      assert ct.InWorld(p, longitude) && b.Has(p, longitude);
      FindsIsProduct(ct, latitude, longitude, radius, p, longitude);
    }
    forall q | ct.LonRange().Inside(q) && b.minLon <= q <= b.maxLon
      ensures AxisKeeps(Cell(longitude, ct.LonRange(), s), ct.LonRange(), s, b.minLon, b.maxLon, Cell(q, ct.LonRange(), s))
    {
      assert ct.InWorld(latitude, q) && b.Has(latitude, q);
      FindsIsProduct(ct, latitude, longitude, radius, latitude, q);
    }
  }

  // ---------- the Mercator type: the disc ----------

  /** geohashGetDistanceIfInRadius for the Mercator type: the squared planar distance. */
  function SquaredDistance(x1: real, y1: real, x2: real, y2: real): real {
    (x1 - x2) * (x1 - x2) + (y1 - y2) * (y1 - y2)
  }

  ghost predicate DiscFound(latitude: real, longitude: real, radius: real)
    requires Mercator.InWorld(latitude, longitude)
  {
    forall p, q | Mercator.InWorld(p, q) && SquaredDistance(longitude, latitude, q, p) <= radius * radius ::
      Finds(Mercator, Areas(Mercator, latitude, longitude, radius), p, q)
  }

  lemma SquareBound(d: real, e: real, r: real)
    requires d * d + e * e <= r * r && r >= 0.0
    ensures -r <= d <= r && -r <= e <= r
  {
    AbsBound(d, r, e * e);
    AbsBound(e, r, d * d);
  }

  lemma AbsBound(d: real, r: real, rest: real)
    requires d * d + rest <= r * r && r >= 0.0 && rest >= 0.0
    ensures -r <= d <= r
  {
    if d > r {
      SignOfProduct(d - r, d + r, d * d - r * r);
    }
    if -d > r {
      SignOfProduct(-d - r, r - d, d * d - r * r);
    }
  }

  /** Coordinates closer than one side are in the same cell or in adjacent ones. */
  lemma CloseCells(v: real, p: real, range: Range, step: nat)
    requires range.Proper() && range.Has(v) && range.Has(p)
    requires v - Side(range, step) < p < v + Side(range, step)
    ensures Cell(v, range, step) - 1 <= Cell(p, range, step) <= Cell(v, range, step) + 1
  {
    CloseAbove(v, p, range, step);
    CloseAbove(p, v, range, step);
  }

  lemma CloseAbove(v: real, p: real, range: Range, step: nat)
    requires range.Proper() && range.Has(v) && range.Has(p)
    requires p < v + Side(range, step)
    ensures Cell(p, range, step) <= Cell(v, range, step) + 1
  {
    var c, i := Cell(v, range, step), Cell(p, range, step);
    IndexIsCell(v, range, step, c);
    IndexIsCell(p, range, step, i);
    CornerStep(c, range, step);
    CornerStep(c + 1, range, step);
    if i > c + 1 {
      CornerMono(c + 2, i, range, step);
    }
  }

  /** k cell sides further on is k cells further on. */
  lemma CellsFurther(v: real, p: real, range: Range, step: nat, k: nat)
    requires range.Proper() && range.Has(v) && range.Has(p) && p == v + k as real * Side(range, step)
    ensures Cell(p, range, step) == Cell(v, range, step) + k
  {
    hide Side, Corner, Index;
    var c := Cell(v, range, step);
    IndexIsCell(v, range, step, c);
    CornerStep(c, range, step);
    CornerStep(c + k, range, step);
    SumTimes(c as real, k as real, Side(range, step));
    IndexIsCell(p, range, step, c + k);
  }

  /** At step 26 a quarter of the map is 2^24 cells. */
  lemma QuarterMapAway(v: real, p: real)
    requires MERCATOR_RANGE.Has(v) && MERCATOR_RANGE.Has(p) && p == v + MERCATOR_MAX / 2.0
    ensures Cell(p, MERCATOR_RANGE, 26) == Cell(v, MERCATOR_RANGE, 26) + Pow2(24)
  {
    hide Pow2, Side;
    QuarterSide(MERCATOR_RANGE, 24);
    CellsFurther(v, p, MERCATOR_RANGE, 26, Pow2(24));
  }

  lemma SumTimes(a: real, b: real, c: real)
    ensures (a + b) * c == a * c + b * c
  {
  }

  lemma QuarterSide(range: Range, n: nat)
    ensures Pow2(n) as real * Side(range, n + 2) == range.Width() / 4.0
  {
    Pow2RIsPow2(n);
    FourTimes(n);
    FourthQuotient(Pow2R(n), range.Width());
  }

  lemma FourTimes(n: nat)
    ensures Pow2R(n + 2) == 2.0 * (2.0 * Pow2R(n))
  {
    assert Pow2R(n + 1) == 2.0 * Pow2R(n);
  }

  lemma FourthQuotient(p: real, w: real)
    requires p > 0.0
    ensures p * (w / (2.0 * (2.0 * p))) == w / 4.0
  {
  }

  /** Below the map's half width the whole disc is found... */
  lemma SmallDisc(latitude: real, longitude: real, radius: real, p: real, q: real)
    requires Mercator.OnMap(latitude, longitude) && 0.0 <= radius < MERCATOR_MAX
    requires Mercator.InWorld(p, q) && SquaredDistance(longitude, latitude, q, p) <= radius * radius
    ensures Finds(Mercator, Areas(Mercator, latitude, longitude, radius), p, q)
  {
    var s := StepFor(radius);
    SquareBound(longitude - q, latitude - p, radius);
    if radius > 0.0 {
      StepReach(radius);
      CloseCells(latitude, p, MERCATOR_RANGE, s);
      CloseCells(longitude, q, MERCATOR_RANGE, s);
    }
    AxisNear(latitude, p, MERCATOR_RANGE, s, latitude - radius, latitude + radius);
    AxisNear(longitude, q, MERCATOR_RANGE, s, longitude - radius, longitude + radius);
    FindsIsProduct(Mercator, latitude, longitude, radius, p, q);
  }

  /** ... and from there on it is not: the step falls back to 26, whose nine cells are tiny. */
  lemma LargeDisc(latitude: real, longitude: real, radius: real) returns (p: real)
    requires Mercator.InWorld(latitude, longitude) && radius >= MERCATOR_MAX
    ensures Mercator.InWorld(p, longitude) && SquaredDistance(longitude, latitude, longitude, p) <= radius * radius
    ensures !Finds(Mercator, Areas(Mercator, latitude, longitude, radius), p, longitude)
  {
    p := QuarterAway(latitude);
    VerticalDistance(latitude, longitude, p, radius);
    var c := Cell(latitude, MERCATOR_RANGE, 26);
    IndexBounds(latitude, MERCATOR_RANGE, 26);
    FarAround(c, Cell(p, MERCATOR_RANGE, 26), 24);
    FindsIsProduct(Mercator, latitude, longitude, radius, p, longitude);
  }

  lemma QuarterAway(v: real) returns (p: real)
    requires MERCATOR_RANGE.Inside(v)
    ensures MERCATOR_RANGE.Inside(p) && (p == v + MERCATOR_MAX / 2.0 || p == v - MERCATOR_MAX / 2.0)
    ensures var c, i := Cell(v, MERCATOR_RANGE, 26), Cell(p, MERCATOR_RANGE, 26);
      i == c + Pow2(24) || c == i + Pow2(24)
  {
    if v < MERCATOR_MAX / 2.0 {
      p := v + MERCATOR_MAX / 2.0;
      QuarterMapAway(v, p);
    } else {
      p := v - MERCATOR_MAX / 2.0;
      QuarterMapAway(p, v);
    }
  }

  lemma VerticalDistance(latitude: real, longitude: real, p: real, radius: real)
    requires radius >= MERCATOR_MAX && (p == latitude + MERCATOR_MAX / 2.0 || p == latitude - MERCATOR_MAX / 2.0)
    ensures SquaredDistance(longitude, latitude, longitude, p) <= radius * radius
  {
    SquareMono(MERCATOR_MAX / 2.0, radius);
  }

  lemma SquareMono(a: real, b: real)
    requires 0.0 <= a <= b
    ensures a * a <= b * b
  {
    RealMulMono(a, b, a);
    RealMulMono(a, b, b);
  }

  lemma FarAround(c: nat, i: nat, m: nat)
    requires m >= 2 && c <= Pow2(m + 2) && (i == c + Pow2(m) || c == i + Pow2(m))
    ensures i != c && i != Around(c, 1, m + 2) && i != Around(c, -1, m + 2)
  {
    var n := Pow2(m + 2);
    assert n == 2 * Pow2(m + 1) && Pow2(m + 1) == 2 * Pow2(m);
    Pow2Mono(2, m);
    if c < n {
      AroundCases(c, 1, m + 2);
      AroundCases(c, -1, m + 2);
    } else {
      QuotientUnique(c + 1, n, 1, 1);
      QuotientUnique(c - 1, n, 0, c - 1);
    }
  }

  /** For the Mercator type a search finds every position of the disc exactly when r < MERCATOR_MAX. */
  lemma DiscFoundExactly(latitude: real, longitude: real, radius: real)
    requires Mercator.InWorld(latitude, longitude) && radius >= 0.0
    ensures DiscFound(latitude, longitude, radius) <==> radius < MERCATOR_MAX
  {
    if radius < MERCATOR_MAX {
      forall p, q | Mercator.InWorld(p, q) && SquaredDistance(longitude, latitude, q, p) <= radius * radius
        ensures Finds(Mercator, Areas(Mercator, latitude, longitude, radius), p, q)
      {
        SmallDisc(latitude, longitude, radius, p, q);
      }
    } else {
      var p := LargeDisc(latitude, longitude, radius);
    }
  }

  // ---------- WGS84: the rows ----------

  /** On an axis of N > 2 cells, a box of half-width d stays within one cell of every centre
      exactly when d is at most one cell side. */
  lemma ReachesForAllCentres(range: Range, step: nat, d: real)
    requires range.Proper() && 1 <= step <= 30 && d >= 0.0
    ensures (forall v | range.Inside(v) :: Reaches(v, range, step, v - d, v + d)) <==> step == 1 || d <= Side(range, step)
  {
    if step == 1 || d <= Side(range, step) {
      forall v | range.Inside(v)
        ensures Reaches(v, range, step, v - d, v + d)
      {
        if step == 1 {
          TwoRows(v, range, d);
        } else {
          ReachesWithin(v, range, step, d);
        }
      }
    } else {
      var v := CentreAtEdge(range, step, d);
    }
  }

  lemma TwoRows(v: real, range: Range, d: real)
    requires range.Proper() && range.Inside(v) && d >= 0.0
    ensures Reaches(v, range, 1, v - d, v + d)
  {
    IndexBounds(v, range, 1);
    if v + d < range.max {
      IndexBounds(v + d, range, 1);
    }
    assert Pow2(1) == 2;
  }

  lemma ReachesWithin(v: real, range: Range, step: nat, d: real)
    requires range.Proper() && range.Inside(v) && 0.0 <= d <= Side(range, step)
    ensures Reaches(v, range, step, v - d, v + d)
  {
    var c := Cell(v, range, step);
    IndexIsCell(v, range, step, c);
    IndexBounds(v, range, step);
    CornerStep(c, range, step);
    CornerStep(c + 1, range, step);
    if v - d >= range.min {
      var j := Cell(v - d, range, step);
      IndexIsCell(v - d, range, step, j);
      if j + 1 < c {
        CornerStep(c - 1, range, step);
        CornerMono(j + 1, c - 1, range, step);
      }
    } else if c >= 2 {
      LastCorner(range, step);
      CornerStep(c - 1, range, step);
      CornerMono(1, c - 1, range, step);
      CornerStep(0, range, step);
    }
    if v + d < range.max {
      var j := Cell(v + d, range, step);
      IndexIsCell(v + d, range, step, j);
      if j > c + 1 {
        CornerMono(c + 2, j, range, step);
      }
    } else if c + 2 < Pow2(step) {
      LastCorner(range, step);
      CornerMono(c + 2, Pow2(step), range, step);
    }
  }

  /** A centre close to the upper edge of the first cell. */
  lemma CentreAtEdge(range: Range, step: nat, d: real) returns (v: real)
    requires range.Proper() && 2 <= step <= 30 && d > Side(range, step)
    ensures range.Inside(v) && !Reaches(v, range, step, v - d, v + d)
  {
    var side := Side(range, step);
    var back := if d - side < side then (d - side) / 2.0 else side / 2.0;
    CornerStep(0, range, step);
    CornerStep(1, range, step);
    CornerStep(2, range, step);
    LastCorner(range, step);
    Pow2Mono(2, step);
    CornerMono(2, Pow2(step), range, step);
    v := Corner(1, range, step) - back;
    IndexIsCell(v, range, step, 0);
    if v + d < range.max {
      var j := Cell(v + d, range, step);
      IndexBounds(v + d, range, step);
      IndexIsCell(v + d, range, step, j);
      if j < 2 {
        CornerMono(j + 1, 2, range, step);
      }
    }
  }

  /** Half the height of the WGS84 bounding box, in degrees of latitude. */
  function LatHalfHeight(radius: real): real { radius / EARTH_RADIUS_IN_METERS / D_R }

  lemma Wgs84Rows(trig: Trig, latitude: real, longitude: real, radius: real)
    ensures var b := BoundingBox(WGS84(trig), latitude, longitude, radius);
      b.minLat == latitude - LatHalfHeight(radius) && b.maxLat == latitude + LatHalfHeight(radius)
  {
  }

  /** For WGS84 the rows of a radius reach the whole bounding box of every centre exactly when the
      half-height is at most a row (or there are only two rows). */
  lemma Wgs84RowsExactly(radius: real)
    requires radius >= 0.0
    ensures var s := StepFor(radius);
      (forall v | WGS84_LAT.Inside(v) :: Reaches(v, WGS84_LAT, s, v - LatHalfHeight(radius), v + LatHalfHeight(radius)))
      <==> s == 1 || LatHalfHeight(radius) <= Side(WGS84_LAT, s)
  {
    HalfHeightPositive(radius);
    ReachesForAllCentres(WGS84_LAT, StepFor(radius), LatHalfHeight(radius));
  }

  lemma HalfHeightPositive(radius: real)
    requires radius >= 0.0
    ensures LatHalfHeight(radius) >= 0.0
  {
  }

  /** The code's step for 4 km is 13, whose rows are shorter than 4 km. */
  lemma FourKilometres()
    ensures StepFor(4000.0) == 13
    ensures LatHalfHeight(4000.0) > Side(WGS84_LAT, 13)
  {
  }

  /** What asin(sin(distance) / cos(latr)) gives for the distance of the radius, at most half the
      circumference: no number, or none below zero. */
  ghost predicate SpreadsOut(trig: Trig, radius: real) {
    forall latitude | WGS84_LAT.Inside(latitude) ::
      var spread := trig.lonSpread(radius / EARTH_RADIUS_IN_METERS, latitude * D_R);
      spread.Angle? ==> spread.radians >= 0.0
  }

  lemma BoxHasCentre(trig: Trig, latitude: real, longitude: real, radius: real)
    requires radius >= 0.0 && SpreadsOut(trig, radius) && WGS84(trig).InWorld(latitude, longitude)
    ensures BoundingBox(WGS84(trig), latitude, longitude, radius).Has(latitude, longitude)
  {
    HalfHeightPositive(radius);
    Wgs84Rows(trig, latitude, longitude, radius);
  }

  /** So for some centre the WGS84 search misses part of its bounding box. */
  lemma Wgs84Misses(trig: Trig) returns (latitude: real)
    requires SpreadsOut(trig, 4000.0)
    ensures WGS84_LAT.Inside(latitude)
    ensures !BoxFound(WGS84(trig), Areas(WGS84(trig), latitude, 0.0, 4000.0),
                      BoundingBox(WGS84(trig), latitude, 0.0, 4000.0))
  {
    hide Reaches, Areas, BoundingBox, LatHalfHeight, Side, StepFor;
    FourKilometres();
    latitude := CentreAtEdge(WGS84_LAT, 13, LatHalfHeight(4000.0));
    BoxHasCentre(trig, latitude, 0.0, 4000.0);
    Wgs84Rows(trig, latitude, 0.0, 4000.0);
    BoxFoundExactly(WGS84(trig), latitude, 0.0, 4000.0);
  }
}
