// The WGS84 search along the equator, over all centres: which radii are complete.
module EquatorRadii {
  import opened Arith
  import opened Geohash
  import opened GeoRadius
  import opened Coverage
  import opened GeoSearch
  import opened MeridianSearch
  import opened MeridianRadii
  import opened Sphere
  import opened Equator

  /** The searches of a radius are complete on the equator, from all its centres. */
  ghost predicate RadiusComplete(trig: Trig, radius: real) {
    forall q: Query | AtEquator(q) && q.ct == WGS84(trig) && q.radius == radius :: EquatorComplete(q)
  }

  /** The width of a column of the step on the equator, in metres. */
  function ColumnWidth(step: nat): real { Side(WGS84_LON, step) * D_R * EARTH_RADIUS_IN_METERS }

  /** A quarter of the circumference in metres. */
  const QUARTER: real := 90.0 * D_R * EARTH_RADIUS_IN_METERS

  lemma WideOutOfReach(q: Query)
    requires AtEquator(q) && LatHalfHeight(q.radius) <= Side(WGS84_LON, StepFor(q.radius))
    ensures !EastInReach(q) && !WestInReach(q)
  {
    hide Corner, Side, FirstEast, FirstWest, LatHalfHeight;
    EastAway(q);
    WestAway(q);
  }

  /** A centre in the first column that sees the third. */
  lemma WestCentre(step: nat, d: real) returns (v: real)
    requires 2 <= step <= 26 && d > Side(WGS84_LON, step)
    ensures WGS84_LON.Inside(v) && Cell(v, WGS84_LON, step) == 0
    ensures Abs(v - Corner(2, WGS84_LON, step)) <= d && Abs(v - Corner(2, WGS84_LON, step)) <= 180.0
    ensures v + 180.0 > 2.0 * Side(WGS84_LON, step) - d
  {
    hide Corner, Side, Index;
    var side := Side(WGS84_LON, step);
    SideSizes(step);
    CornerStep(0, WGS84_LON, step);
    CornerStep(1, WGS84_LON, step);
    CornerStep(2, WGS84_LON, step);
    v := Corner(1, WGS84_LON, step) - (if d - side < side then d - side else side) / 2.0;
    IndexIsCell(v, WGS84_LON, step, 0);
  }

  /** From a centre in the first column the first fine column of the third is held by no box; with four
      columns only if the box does not reach across the date line. */
  lemma ThirdNotHeld(q: Query)
    requires AtEquator(q) && StepFor(q.radius) >= 2 && CentreColumn(q) == 0
    requires StepFor(q.radius) == 2 ==> !KeepsColumn(q, 3)
    ensures !ColumnHeld(q, Lift(2, 26 - StepFor(q.radius)))
  {
    hide Index, StepFor, KeepsColumn, KeepsRow, ColumnHeld, Pow2, Drop, Lift;
    var s := StepFor(q.radius);
    var j := Lift(2, 26 - s);
    if ColumnHeld(q, j) {
      var i', j' := HeldKept(q, j);
      KeptNearby(q);
      LiftMono(2, 3, 26 - s);
      DropIsBlock(j, 26 - s, 2);
      HalfBelow(s);
      Pow2Sizes(s);
      Pow2Sizes(s - 1);
      assert false;
    }
  }

  /** With four columns and a radius beyond a quarter turn the first column's centres do not reach the last. */
  lemma LastNotKept(q: Query)
    requires AtEquator(q) && StepFor(q.radius) == 2 && CentreColumn(q) == 0 && q.radius < MERCATOR_MAX
    requires LatHalfHeight(q.radius) > 90.0 && q.longitude + 180.0 > 180.0 - LatHalfHeight(q.radius)
    ensures !KeepsColumn(q, 3)
  {
    hide Index, StepFor, Corner, LonSpread, KeepsColumn, LatHalfHeight;
    HalfTurn(q.radius);
    BeyondQuarterTurn(q);
    KeptColumns(q, 3);
    Pow2Sizes(2);
    assert Pow2(2) == 4;
    AroundCases(0, 1, 2);
    AroundCases(0, -1, 2);
    CornerStep(0, WGS84_LON, 2);
  }

  lemma HalfTurn(radius: real)
    requires radius < MERCATOR_MAX
    ensures LatHalfHeight(radius) <= 270.0
  {
  }

  lemma NarrowIncomplete(trig: Trig, radius: real)
    requires radius >= 0.0 && Equatorial(trig) && StepFor(radius) >= 2
    requires LatHalfHeight(radius) > Side(WGS84_LON, StepFor(radius))
    ensures !RadiusComplete(trig, radius)
  {
    hide Corner, Side, Index, StepFor, Lift, Equatorial, EquatorComplete, LatHalfHeight, ColumnHeld, KeepsColumn, Pow2;
    var s := StepFor(radius);
    var v := WestCentre(s, LatHalfHeight(radius));
    var q := Query(WGS84(trig), "", 0.0, v, radius);
    assert AtEquator(q);
    SideSizes(s);
    if s == 2 {
      CoarseStep(radius);
      FourColumns();
      LastNotKept(q);
    }
    ThirdNotHeld(q);
    var j := Lift(2, 26 - s);
    Pow2Sizes(s);
    LiftBound(2, s, 26 - s);
    CornerFiner(2, WGS84_LON, s, 26 - s);
    ColumnsNarrow(s, 26);
    ColumnMissed(q, j);
  }

  lemma CoarseStep(radius: real)
    requires StepFor(radius) < 26
    ensures radius < MERCATOR_MAX
  {
  }

  lemma FourColumns()
    ensures Side(WGS84_LON, 2) == 90.0
  {
    assert Pow2R(2) == 4.0;
  }

  /** With two columns and a radius beyond a quarter turn, the box around the middle of one of them ends
      before the other. */
  lemma MiddleIncomplete(trig: Trig, radius: real)
    requires radius >= 0.0 && Equatorial(trig) && StepFor(radius) == 1 && LatHalfHeight(radius) > 90.0
    ensures !RadiusComplete(trig, radius)
  {
    hide Corner, Side, Index, StepFor, Equatorial, EquatorComplete, LatHalfHeight, ColumnHeld, KeepsColumn;
    var q := Query(WGS84(trig), "", 0.0, 90.0, radius);
    assert AtEquator(q);
    FirstNotHeld(q);
    LastCorner(WGS84_LON, 26);
    SideSizes(26);
    ColumnMissed(q, 0);
  }

  lemma EastHalf()
    ensures Pow2(1) == 2 && Pow2(0) == 1
    ensures Corner(1, WGS84_LON, 1) == 0.0 && Corner(2, WGS84_LON, 1) == 180.0
    ensures Cell(90.0, WGS84_LON, 1) == 1
  {
    hide Corner, Index;
    SideSizes(1);
    CornerStep(0, WGS84_LON, 1);
    CornerStep(1, WGS84_LON, 1);
    IndexIsCell(90.0, WGS84_LON, 1, 1);
  }

  lemma FirstNotHeld(q: Query)
    requires AtEquator(q) && StepFor(q.radius) == 1 && q.longitude == 90.0 && LatHalfHeight(q.radius) > 90.0
    ensures !ColumnHeld(q, 0)
  {
    hide Corner, Index, StepFor, LatHalfHeight, ColumnHeld, KeepsColumn, KeepsRow, LonSpread, Drop, Pow2, Side;
    EastHalf();
    CoarseStep(q.radius);
    HalfTurn(q.radius);
    BeyondQuarterTurn(q);
    KeptColumns(q, 0);
    if ColumnHeld(q, 0) {
      var i', j' := HeldKept(q, 0);
      Pow2Exceeds(25);
      DropZero(0, 25);
      assert false;
    }
  }

  /** For all radii: the WGS84 search is complete on the equator, from all its centres, exactly for those of
      at most a quarter of the circumference and at most a column's width. */
  lemma RadiusCompleteExactly(trig: Trig, radius: real)
    requires radius >= 0.0 && Equatorial(trig)
    ensures RadiusComplete(trig, radius) <==> radius <= QUARTER && radius <= ColumnWidth(StepFor(radius))
  {
    hide Side, StepFor, Equatorial, EquatorComplete, LatHalfHeight, EastInReach, WestInReach, RadiusComplete;
    var s := StepFor(radius);
    HeightInMetres(radius, 90.0);
    HeightInMetres(radius, Side(WGS84_LON, s));
    SideSizes(s);
    if LatHalfHeight(radius) <= 90.0 && LatHalfHeight(radius) <= Side(WGS84_LON, s) {
      WideComplete(trig, radius);
    } else if s == 1 {
      MiddleIncomplete(trig, radius);
    } else {
      NarrowIncomplete(trig, radius);
    }
  }

  lemma WideComplete(trig: Trig, radius: real)
    requires radius >= 0.0 && Equatorial(trig)
    requires radius <= QUARTER && LatHalfHeight(radius) <= Side(WGS84_LON, StepFor(radius))
    ensures RadiusComplete(trig, radius)
  {
    hide Side, StepFor, Equatorial, EquatorComplete, LatHalfHeight, EastInReach, WestInReach;
    forall q: Query | AtEquator(q) && q.ct == WGS84(trig) && q.radius == radius
      ensures EquatorComplete(q)
    {
      WideOutOfReach(q);
      EquatorSearchExactly(q);
    }
  }

  /** 4 km are complete, 4.89 km are not: both have step 13, whose columns are about 4887.87 m wide. */
  lemma ColumnsOfThirteen(trig: Trig)
    requires Equatorial(trig)
    ensures RadiusComplete(trig, 4000.0) && !RadiusComplete(trig, 4890.0)
    ensures 4887.8745117187 < ColumnWidth(13) < 4887.8745117188
  {
    hide RadiusComplete, Equatorial;
    FourKilometres();
    assert StepFor(4890.0) == 13;
    assert Pow2R(13) == 8192.0;
    RadiusCompleteExactly(trig, 4000.0);
    RadiusCompleteExactly(trig, 4890.0);
  }

  // ---------- the laws ----------

  /** Functions that meet the laws taken for the trigonometric ones, if only with a coarser distance. */
  function Folded(d: real, latr: real): Angle { Angle(if d <= M_PI / 2.0 then d else M_PI - d) }

  function AroundTheBlock(p: real, a: real, q: real, b: real): real {
    (Abs(p - q) + CircArc(Abs(a - b))) * D_R * EARTH_RADIUS_IN_METERS
  }

  /** The laws can be met together. */
  lemma LawsTogether()
    ensures var trig := Trig(Folded, AroundTheBlock); Meridional(trig) && Equatorial(trig) && Spherical(trig)
  {
    var trig := Trig(Folded, AroundTheBlock);
    forall lat, lon, p, b, radius | WGS84(trig).InWorld(lat, lon) && WGS84(trig).InWorld(p, b) && QuarterOrLess(radius)
      ensures Capped(trig, lat, lon, p, b, radius)
    {
      if AroundTheBlock(lat, lon, p, b) <= radius {
        BlockWithin(Abs(lat - p), CircArc(Abs(lon - b)), radius);
      }
    }
  }

  lemma BlockWithin(x: real, y: real, radius: real)
    requires x >= 0.0 && y >= 0.0 && (x + y) * D_R * EARTH_RADIUS_IN_METERS <= radius
    ensures x * D_R <= radius / EARTH_RADIUS_IN_METERS && y * D_R <= radius / EARTH_RADIUS_IN_METERS
  {
    ArcWithin(x, radius);
    ArcWithin(y, radius);
  }
}
