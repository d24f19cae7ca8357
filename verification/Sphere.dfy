// The WGS84 search around any centre: which members of the cells next to the centre's are scanned.
module Sphere {
  import opened Arith
  import opened Morton
  import opened Geohash
  import opened GeoRadius
  import opened Coverage
  import opened GeoIndex
  import opened CStrings
  import opened GeoSearch
  import opened SearchLimits
  import opened MeridianSearch

  // ---------- the distance test, spelled out ----------

  /** A WGS84 member is wanted when it is another one and its great-circle distance from the centre is
      at most the radius; that distance comes with it. */
  lemma Wgs84Wanted(q: Query, e: Entry)
    requires q.ct.WGS84?
    ensures var d := q.ct.trig.haversine(q.latitude, q.longitude, Corner(EvenDigits(e.score), WGS84_LAT, 26),
                                         Corner(OddDigits(e.score), WGS84_LON, 26));
      && (Keeps(q, PointOf(q.ct, e)) <==>
            (|e.member| != |q.centre| || CStr(e.member) != CStr(q.centre)) && d <= q.radius)
      && Measured(q, PointOf(q.ct, e)).dist == d
  {
    CentreIsMember(q, e.member);
  }

  /** For the Mercator type the squares of the distance in the plane and of the radius are compared, and
      the square is the distance returned. */
  lemma MercatorWanted(q: Query, e: Entry)
    requires q.ct == Mercator
    ensures var dx := q.longitude - Corner(OddDigits(e.score), MERCATOR_RANGE, 26);
      var dy := q.latitude - Corner(EvenDigits(e.score), MERCATOR_RANGE, 26);
      && (Keeps(q, PointOf(q.ct, e)) <==>
            (|e.member| != |q.centre| || CStr(e.member) != CStr(q.centre)) && dx * dx + dy * dy <= q.radius * q.radius)
      && Measured(q, PointOf(q.ct, e)).dist == dx * dx + dy * dy
  {
    hide Corner, EvenDigits, OddDigits, CStr, StrNEq;
    CentreIsMember(q, e.member);
  }

  // ---------- a law of the sphere ----------

  /** The shorter way round for a difference of two longitudes. */
  function CircArc(x: real): real { if x <= 180.0 then x else 360.0 - x }

  /** A position within the radius, at most a quarter of the circumference, is no further north or south
      than the radius and no further east or west than asin(sin(distance) / cos(latr)), if that is a number. */
  predicate Capped(trig: Trig, lat: real, lon: real, p: real, b: real, radius: real) {
    trig.haversine(lat, lon, p, b) <= radius ==>
      && Abs(lat - p) * D_R <= radius / EARTH_RADIUS_IN_METERS
      && match trig.lonSpread(radius / EARTH_RADIUS_IN_METERS, lat * D_R)
         case NaN => true
         case Angle(spread) => CircArc(Abs(lon - b)) * D_R <= spread
  }

  ghost predicate Spherical(trig: Trig) {
    forall lat, lon, p, b, radius | WGS84(trig).InWorld(lat, lon) && WGS84(trig).InWorld(p, b) && QuarterOrLess(radius) ::
      Capped(trig, lat, lon, p, b, radius)
  }

  predicate QuarterOrLess(radius: real) { 0.0 <= radius / EARTH_RADIUS_IN_METERS <= M_PI / 2.0 }

  // ---------- the columns of the box ----------

  function LonSpread(q: Query): Angle
    requires q.ct.WGS84?
  {
    q.ct.trig.lonSpread(q.radius / EARTH_RADIUS_IN_METERS, q.latitude * D_R)
  }

  function CentreColumn(q: Query): nat
    requires q.ct.WGS84? && q.ct.InWorld(q.latitude, q.longitude)
  {
    Cell(q.longitude, WGS84_LON, StepFor(q.radius))
  }

  predicate KeepsColumn(q: Query, m: nat)
    requires q.ct.WGS84? && q.ct.InWorld(q.latitude, q.longitude)
  {
    AxisKeeps(CentreColumn(q), WGS84_LON, StepFor(q.radius), q.Box().minLon, q.Box().maxLon, m)
  }

  predicate KeepsRow(q: Query, r: nat)
    requires q.ct.WGS84? && q.ct.InWorld(q.latitude, q.longitude)
  {
    AxisKeeps(CentreRow(q), WGS84_LAT, StepFor(q.radius), q.Box().minLat, q.Box().maxLat, r)
  }

  /** The box ends at the longitudes asin(sin(distance) / cos(latr)) away. */
  lemma BoxColumns(q: Query)
    requires q.ct.WGS84? && LonSpread(q).Angle?
    ensures q.Box().minLon == q.longitude - LonSpread(q).radians / D_R
    ensures q.Box().maxLon == q.longitude + LonSpread(q).radians / D_R
  {
  }

  lemma BoxWithoutColumns(q: Query)
    requires q.ct.WGS84? && LonSpread(q).NaN?
    ensures q.Box().minLon == -540.0 && q.Box().maxLon == 540.0
  {
  }

  lemma LonBounds(v: real, s: nat)
    requires WGS84_LON.Inside(v) && s <= 26
    ensures var c := Cell(v, WGS84_LON, s);
      && c < Pow2(s) && Next32(c) == c + 1
      && -180.0 <= Corner(c, WGS84_LON, s) <= v < Corner(c + 1, WGS84_LON, s) <= 180.0
      && Corner(c + 1, WGS84_LON, s) == Corner(c, WGS84_LON, s) + Side(WGS84_LON, s)
  {
    hide Corner, Side, Pow2, Index, Next32;
    var c := Cell(v, WGS84_LON, s);
    IndexBounds(v, WGS84_LON, s);
    AxisRoundTrip(v, WGS84_LON, s);
    LastCorner(WGS84_LON, s);
    CornerMono(0, c, WGS84_LON, s);
    CornerMono(c + 1, Pow2(s), WGS84_LON, s);
    CornerStep(c, WGS84_LON, s);
  }

  /** Which columns the search keeps: the centre's, and the next ones whose near edge the box reaches. */
  lemma KeptColumns(q: Query, m: nat)
    requires q.ct.WGS84? && q.ct.InWorld(q.latitude, q.longitude)
    ensures var c, s := CentreColumn(q), StepFor(q.radius);
      KeepsColumn(q, m) <==>
        || m == c
        || (m == Around(c, 1, s) &&
            (LonSpread(q).NaN? || Corner(c + 1, WGS84_LON, s) <= q.longitude + LonSpread(q).radians / D_R))
        || (m == Around(c, -1, s) &&
            (LonSpread(q).NaN? || q.longitude - LonSpread(q).radians / D_R <= Corner(c, WGS84_LON, s)))
  {
    hide BoundingBox, Corner, Side, Index, Around, LonSpread, Next32, StepFor, Pow2;
    LonBounds(q.longitude, StepFor(q.radius));
    if LonSpread(q).Angle? {
      BoxColumns(q);
    } else {
      BoxWithoutColumns(q);
    }
  }

  // ---------- members in the cells next to the centre's ----------

  /** Two columns on either side of the date line. */
  lemma AcrossDateLine(v: real, p: real, s: nat)
    requires WGS84_LON.Inside(v) && WGS84_LON.Inside(p) && 1 <= s <= 26 && v - p > 180.0
    requires NearRow(Cell(v, WGS84_LON, s), Pow2(s), Cell(p, WGS84_LON, s))
    ensures Cell(v, WGS84_LON, s) == Pow2(s) - 1 && Cell(p, WGS84_LON, s) == 0
  {
    hide Corner, Side, Pow2, Index;
    var c, m := Cell(v, WGS84_LON, s), Cell(p, WGS84_LON, s);
    LonBounds(v, s);
    LonBounds(p, s);
    SideSizes(s);
    Pow2Sizes(s);
    if c <= m {
      CornerMono(c, m, WGS84_LON, s);
    }
  }

  lemma SideSizes(s: nat)
    requires 1 <= s
    ensures 0.0 < Side(WGS84_LON, s) <= 180.0
    ensures s == 1 ==> Side(WGS84_LON, s) == 180.0
    ensures s >= 2 ==> Side(WGS84_LON, s) <= 90.0
    decreases s
  {
    CornerStep(0, WGS84_LON, s);
    if s == 1 {
      assert Pow2R(1) == 2.0;
    } else {
      SideSizes(s - 1);
      HalfQuotient(WGS84_LON.Width(), Pow2R(s - 1));
    }
  }

  /** A longitude within w degrees, in the centre's column or one next to it, is kept by a box that
      reaches w degrees to both sides, across the date line too. */
  lemma ColumnReached(v: real, p: real, s: nat, w: real, lo: real, hi: real)
    requires WGS84_LON.Inside(v) && WGS84_LON.Inside(p) && 1 <= s <= 26
    requires CircArc(Abs(v - p)) <= w && lo <= v - w && v + w <= hi
    requires NearRow(Cell(v, WGS84_LON, s), Pow2(s), Cell(p, WGS84_LON, s))
    ensures AxisKeeps(Cell(v, WGS84_LON, s), WGS84_LON, s, lo, hi, Cell(p, WGS84_LON, s))
  {
    hide Corner, Side, Pow2, Index, Around, Next32;
    var c, m := Cell(v, WGS84_LON, s), Cell(p, WGS84_LON, s);
    LonBounds(v, s);
    LonBounds(p, s);
    AroundCases(c, 1, s);
    AroundCases(c, -1, s);
    LastCorner(WGS84_LON, s);
    if v - p > 180.0 {
      AcrossDateLine(v, p, s);
    } else if p - v > 180.0 {
      AcrossDateLine(p, v, s);
    } else if c <= m + 1 && m <= c + 1 {
      AxisNear(v, p, WGS84_LON, s, lo, hi);
    } else {
      FarColumns(v, p, s);
    }
  }

  lemma FarColumns(v: real, p: real, s: nat)
    requires WGS84_LON.Inside(v) && WGS84_LON.Inside(p) && 1 <= s <= 26
    requires NearRow(Cell(v, WGS84_LON, s), Pow2(s), Cell(p, WGS84_LON, s))
    requires !(Cell(v, WGS84_LON, s) - 1 <= Cell(p, WGS84_LON, s) <= Cell(v, WGS84_LON, s) + 1)
    ensures Abs(v - p) > 180.0
  {
    hide Corner, Side, Pow2, Index;
    var c, m, n := Cell(v, WGS84_LON, s), Cell(p, WGS84_LON, s), Pow2(s);
    LonBounds(v, s);
    LonBounds(p, s);
    LastCorner(WGS84_LON, s);
    SideSizes(s);
    Pow2Sizes(s);
    CornerStep(0, WGS84_LON, s);
    CornerStep(n - 1, WGS84_LON, s);
  }

  /** A wanted member in the centre's cell or in one of the eight next to it is scanned, wherever the
      centre lies and across the date line too. */
  lemma AdjacentScanned(q: Query, e: Entry)
    requires q.ct.WGS84? && Spherical(q.ct.trig) && q.ct.InWorld(q.latitude, q.longitude) && QuarterOrLess(q.radius)
    requires IsScore(e.score) && Wanted(q, e)
    requires var k := 26 - StepFor(q.radius);
      && CentreRow(q) - 1 <= Drop(EvenDigits(e.score), k) <= CentreRow(q) + 1
      && NearRow(CentreColumn(q), Pow2(26 - k), Drop(OddDigits(e.score), k))
    ensures Scanned(Boxes(q.Areas()), e)
  {
    hide Areas, Boxes, Scanned, Index, StepFor, NearRow, Corner, BoundingBox, InRadius, EvenDigits, OddDigits, Drop,
         Pow2;
    var s := StepFor(q.radius);
    var p, b := ScoreLatitude(q.ct, e.score), ScoreLongitude(q.ct, e.score);
    ScoreRowCol(e.score);
    CornerCell(EvenDigits(e.score), WGS84_LAT, s);
    CornerCell(OddDigits(e.score), WGS84_LON, s);
    RowReached(q, p, b);
    LongitudeReached(q, p, b);
    FindsIsProduct(q.ct, q.latitude, q.longitude, q.radius, p, b);
    IndexedIsScanned(q, e);
  }

  lemma RowReached(q: Query, p: real, b: real)
    requires q.ct.WGS84? && Spherical(q.ct.trig) && q.ct.InWorld(q.latitude, q.longitude) && QuarterOrLess(q.radius)
    requires q.ct.InWorld(p, b) && InRadius(q, p, b)
    requires CentreRow(q) - 1 <= Cell(p, WGS84_LAT, StepFor(q.radius)) <= CentreRow(q) + 1
    ensures KeepsRow(q, Cell(p, WGS84_LAT, StepFor(q.radius)))
  {
    hide Index, StepFor, Corner, BoundingBox;
    assert Capped(q.ct.trig, q.latitude, q.longitude, p, b, q.radius);
    var h := LatHalfHeight(q.radius);
    Wgs84Rows(q.ct.trig, q.latitude, q.longitude, q.radius);
    AxisNear(q.latitude, p, WGS84_LAT, StepFor(q.radius), q.latitude - h, q.latitude + h);
  }

  lemma LongitudeReached(q: Query, p: real, b: real)
    requires q.ct.WGS84? && Spherical(q.ct.trig) && q.ct.InWorld(q.latitude, q.longitude) && QuarterOrLess(q.radius)
    requires q.ct.InWorld(p, b) && InRadius(q, p, b)
    requires NearRow(CentreColumn(q), Pow2(StepFor(q.radius)), Cell(b, WGS84_LON, StepFor(q.radius)))
    ensures KeepsColumn(q, Cell(b, WGS84_LON, StepFor(q.radius)))
  {
    hide Index, StepFor, Corner, BoundingBox, NearRow, Pow2;
    assert Capped(q.ct.trig, q.latitude, q.longitude, p, b, q.radius);
    if LonSpread(q).NaN? {
      BoxWithoutColumns(q);
      ColumnReached(q.longitude, b, StepFor(q.radius), 180.0, q.Box().minLon, q.Box().maxLon);
    } else {
      BoxColumns(q);
      ColumnReached(q.longitude, b, StepFor(q.radius), LonSpread(q).radians / D_R, q.Box().minLon, q.Box().maxLon);
    }
  }

  // ---------- members in the columns next to the centre's ----------

  /** Row and column of a score that is no box's extra score. */
  lemma OwnCellOnly(q: Query, i: nat, j: nat)
    requires q.ct.WGS84? && q.ct.InWorld(q.latitude, q.longitude) && StepFor(q.radius) < 26 && j % 2 == 1
    ensures var k := 26 - StepFor(q.radius);
      ScansScore(q, MortonCode(i, j)) <==> KeepsRow(q, Drop(i, k)) && KeepsColumn(q, Drop(j, k))
  {
    hide MortonCode, Drop, Lift, StepFor, AxisKeeps, EvenDigits, OddDigits, BoundingBox, Cell;
    var s := StepFor(q.radius);
    var n := Drop(MortonCode(i, j), 52 - 2 * s);
    PrefixAt(i, j, s);
    CellDigits(Drop(i, 26 - s), Drop(j, 26 - s));
    MortonDigits(i, j);
    LiftFours(n, 26 - s);
  }

  lemma CellDigits(i: nat, j: nat)
    ensures EvenDigits(MortonCode(i, j)) == i && OddDigits(MortonCode(i, j)) == j
  {
    hide MortonCode, EvenDigits, OddDigits;
    DigitsOfCode(MortonCode(i, j));
    MortonInjective(i, j, EvenDigits(MortonCode(i, j)), OddDigits(MortonCode(i, j)));
  }

  /** A member of the centre's row in the column to the east (west), off its first fine column, is scanned
      exactly when that column's near edge is within asin(sin(distance) / cos(latr)) of the centre. */
  lemma NextColumnExactly(q: Query, e: Entry)
    requires q.ct.WGS84? && q.ct.InWorld(q.latitude, q.longitude) && 2 <= StepFor(q.radius) <= 25
    requires Drop(EvenDigits(e.score), 26 - StepFor(q.radius)) == CentreRow(q) && OddDigits(e.score) % 2 == 1
    ensures var c, s := CentreColumn(q), StepFor(q.radius);
      var spread := q.ct.trig.lonSpread(q.radius / EARTH_RADIUS_IN_METERS, q.latitude * D_R);
      var m := Drop(OddDigits(e.score), 26 - s);
      && (m == (c + 1) % Pow2(s) ==>
            (Scanned(Boxes(q.Areas()), e) <==>
             spread.NaN? || Corner(c + 1, WGS84_LON, s) <= q.longitude + spread.radians / D_R))
      && (m == (c - 1) % Pow2(s) ==>
            (Scanned(Boxes(q.Areas()), e) <==>
             spread.NaN? || q.longitude - spread.radians / D_R <= Corner(c, WGS84_LON, s)))
  {
    hide MortonCode, Drop, StepFor, EvenDigits, OddDigits, KeepsColumn, Corner, Index, Areas, Boxes, ScansScore, Pow2;
    var c, s := CentreColumn(q), StepFor(q.radius);
    ScannedExactly(q, e);
    DigitsOfCode(e.score);
    OwnCellOnly(q, EvenDigits(e.score), OddDigits(e.score));
    KeptColumns(q, Drop(OddDigits(e.score), 26 - s));
    LonBounds(q.longitude, s);
    Pow2Sizes(s);
    AroundCases(c, 1, s);
    AroundCases(c, -1, s);
  }
}
