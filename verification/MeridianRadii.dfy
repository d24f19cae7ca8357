// The WGS84 search along meridians, over all centres: which radii are complete, and where every
// centre can miss a member.
module MeridianRadii {
  import opened Arith
  import opened Geohash
  import opened GeoRadius
  import opened Coverage
  import opened GeoSearch
  import opened MeridianSearch

  // ---------- all centres: which radii ----------

  /** The searches of a radius are complete on the meridians of all centres. */
  ghost predicate RadiusComplete(trig: Trig, radius: real) {
    forall q: Query, j: nat | OnColumn(q, j) && q.ct == WGS84(trig) && q.radius == radius :: MeridianComplete(q)
  }

  /** The rows of the search's step are at least half the bounding box tall, or only two. */
  predicate TallRows(radius: real) {
    StepFor(radius) == 1 || LatHalfHeight(radius) <= Side(WGS84_LAT, StepFor(radius))
  }

  /** The height of a row of the finest grid in metres, about 0.28. */
  const FINEST_RADIUS: real := Side(WGS84_LAT, 26) * D_R * EARTH_RADIUS_IN_METERS

  lemma TallReach(q: Query, j: nat)
    requires OnColumn(q, j) && q.radius >= 0.0 && TallRows(q.radius)
    ensures !InReach(q, FirstNorth(q, j)) && !InReach(q, FirstSouth(q, j))
  {
    hide Corner, Side, Index, Lift, Held, LatHalfHeight, StepFor, Pow2;
    var c, s := CentreRow(q), StepFor(q.radius);
    IndexBounds(q.latitude, WGS84_LAT, s);
    SouthOnMap(q, j);
    if s == 1 {
      Pow2Sizes(1);
      if FirstNorth(q, j) < Pow2(26) {
        LiftOnMap(c + 2, s);
      }
    } else {
      RowsAway(q, FirstNorth(q, j));
      if FirstSouth(q, j) >= 0 {
        RowsAway(q, FirstSouth(q, j));
      }
    }
  }

  /** Rows beyond the scanned ones are more than a row's height away. */
  lemma RowsAway(q: Query, i: nat)
    requires q.ct.WGS84? && q.ct.InWorld(q.latitude, q.longitude)
    ensures var c, s := CentreRow(q), StepFor(q.radius);
      && (i >= Lift(c + 2, 26 - s) ==> Corner(i, WGS84_LAT, 26) > q.latitude + Side(WGS84_LAT, s))
      && (c >= 1 && i < Lift(c - 1, 26 - s) ==> Corner(i, WGS84_LAT, 26) < q.latitude - Side(WGS84_LAT, s))
  {
    hide Corner, Side, Index, Lift;
    var c, s := CentreRow(q), StepFor(q.radius);
    IndexIsCell(q.latitude, WGS84_LAT, s, c);
    CornerStep(c, WGS84_LAT, s);
    CornerStep(c + 1, WGS84_LAT, s);
    CornerFine(c + 2, s);
    if i >= Lift(c + 2, 26 - s) {
      CornerMono(Lift(c + 2, 26 - s), i, WGS84_LAT, 26);
    }
    if c >= 1 && i < Lift(c - 1, 26 - s) {
      CornerFine(c - 1, s);
      CornerStep(c - 1, WGS84_LAT, s);
      CornerStep(i, WGS84_LAT, 26);
      CornerMono(i + 1, Lift(c - 1, 26 - s), WGS84_LAT, 26);
    }
  }

  /** From a centre in the first row the first corner of the third is held by no box, on an odd column. */
  lemma LowNotHeld(q: Query, j: nat)
    requires q.ct.WGS84? && q.ct.InWorld(q.latitude, q.longitude) && CentreRow(q) == 0
    requires StepFor(q.radius) >= 2 && j % 2 == 1
    ensures !Held(q, Lift(2, 26 - StepFor(q.radius)), j)
  {
    hide CentreRow, Held, Pow2, Drop, Lift, StepFor;
    var s := StepFor(q.radius);
    var i := Lift(2, 26 - s);
    if Held(q, i, j) {
      var r := HeldNear(q, i, j);
      Pow2Sizes(s);
      DropIsBlock(i, 26 - s, 2);
      LiftMono(2, 3, 26 - s);
      if s == 26 {
        LiftZero(2);
      }
      assert false;
    }
  }

  /** A centre in the first row that sees the third. */
  lemma LowCentre(step: nat, d: real) returns (v: real)
    requires 2 <= step <= 26 && d > Side(WGS84_LAT, step)
    ensures WGS84_LAT.Inside(v) && Cell(v, WGS84_LAT, step) == 0
    ensures WGS84_LAT.Inside(Corner(2, WGS84_LAT, step))
    ensures Abs(v - Corner(2, WGS84_LAT, step)) <= d
  {
    hide Corner, Side, Index;
    var side := Side(WGS84_LAT, step);
    CornerStep(0, WGS84_LAT, step);
    CornerStep(1, WGS84_LAT, step);
    CornerStep(2, WGS84_LAT, step);
    LastCorner(WGS84_LAT, step);
    Pow2Mono(2, step);
    CornerMono(3, Pow2(step), WGS84_LAT, step);
    v := Corner(1, WGS84_LAT, step) - (if d - side < side then d - side else side);
    IndexIsCell(v, WGS84_LAT, step, 0);
  }

  lemma FirstColumn()
    ensures WGS84_LON.Inside(Corner(1, WGS84_LON, 26))
  {
    hide Corner, Pow2;
    LastCorner(WGS84_LON, 26);
    CornerStep(0, WGS84_LON, 26);
    CornerStep(1, WGS84_LON, 26);
    Pow2Exceeds(26);
    CornerMono(2, Pow2(26), WGS84_LON, 26);
  }

  lemma ShortIncomplete(trig: Trig, radius: real)
    requires radius >= 0.0 && Meridional(trig) && !TallRows(radius)
    ensures !RadiusComplete(trig, radius)
  {
    hide Corner, Side, Held, Lift, StepFor, Meridional, MeridianComplete, LatHalfHeight, Index, Pow2;
    var s := StepFor(radius);
    var v := LowCentre(s, LatHalfHeight(radius));
    FirstColumn();
    Pow2Sizes(26);
    var q := Query(WGS84(trig), "", v, Corner(1, WGS84_LON, 26), radius);
    LowNotHeld(q, 1);
    CornerFine(2, s);
    Pow2Sizes(s);
    LiftBound(2, s, 26 - s);
    MeridianSearchExactly(q, 1);
    assert OnColumn(q, 1);
  }

  /** The searches of a radius are complete for all centres exactly when the rows are tall enough ... */
  lemma RadiusCompleteRows(trig: Trig, radius: real)
    requires radius >= 0.0 && Meridional(trig)
    ensures RadiusComplete(trig, radius) <==> TallRows(radius)
  {
    if TallRows(radius) {
      forall q: Query, j: nat | OnColumn(q, j) && q.ct == WGS84(trig) && q.radius == radius
        ensures MeridianComplete(q)
      {
        TallReach(q, j);
        MeridianSearchExactly(q, j);
      }
    } else {
      ShortIncomplete(trig, radius);
    }
  }

  lemma RowInMetres(radius: real, s: nat)
    ensures LatHalfHeight(radius) <= Side(WGS84_LAT, s) <==> radius <= Side(WGS84_LAT, s) * D_R * EARTH_RADIUS_IN_METERS
  {
    hide Side;
    HeightInMetres(radius, Side(WGS84_LAT, s));
  }

  lemma HeightInMetres(radius: real, x: real)
    ensures LatHalfHeight(radius) <= x <==> radius <= x * D_R * EARTH_RADIUS_IN_METERS
  {
  }

  /** A radius that is doubled s times to MERCATOR_MAX is taller than a row of step s: the map is
      narrower from pole to pole than the Mercator world. */
  lemma DoubledTooTall(radius: real, s: nat)
    requires radius * Pow2R(s) >= MERCATOR_MAX
    ensures LatHalfHeight(radius) > Side(WGS84_LAT, s)
  {
    RowInMetres(radius, s);
    RealDivMul(WGS84_LAT.Width(), Pow2R(s));
    if radius <= Side(WGS84_LAT, s) * D_R * EARTH_RADIUS_IN_METERS {
      RealMulMono(radius, Side(WGS84_LAT, s) * D_R * EARTH_RADIUS_IN_METERS, Pow2R(s));
      Reorder(Side(WGS84_LAT, s), Pow2R(s));
    }
  }

  lemma Reorder(side: real, p: real)
    ensures side * D_R * EARTH_RADIUS_IN_METERS * p == side * p * (D_R * EARTH_RADIUS_IN_METERS)
  {
  }

  /** ... which is at most a finest row, 0.28 m, or at least half the Mercator world's half width. */
  lemma TallRowsRadii(radius: real)
    requires radius >= 0.0
    ensures TallRows(radius) <==> radius <= FINEST_RADIUS || MERCATOR_MAX / 2.0 <= radius < MERCATOR_MAX
  {
    hide Side, LatHalfHeight, Doublings, Pow2R;
    RowInMetres(radius, 26);
    FinestSize();
    SideMono(StepFor(radius), 26);
    if radius >= MERCATOR_MAX {
    } else if radius >= MERCATOR_MAX / 2.0 {
      OneDoubling(radius);
    } else if radius > FINEST_RADIUS {
      var k := Doublings(radius);
      DoublingsBetween(radius);
      DoublingsReach(radius);
      DoubledTooTall(radius, k);
    }
  }

  lemma FinestSize()
    ensures 0.28192765608 < FINEST_RADIUS < 0.28192765609
  {
    FinestCells();
    assert Side(WGS84_LAT, 26) == WGS84_LAT.Width() / 67108864.0;
  }

  lemma FinestCells()
    ensures Pow2R(26) == 67108864.0
    ensures Pow2R(27) == 134217728.0
  {
    assert Pow2R(13) == 8192.0;
    Pow2RSum(13, 13);
    assert Pow2R(27) == 2.0 * Pow2R(26);
  }

  lemma OneDoubling(radius: real)
    requires MERCATOR_MAX / 2.0 <= radius < MERCATOR_MAX
    ensures StepFor(radius) == 1
  {
    assert Doublings(radius * 2.0) == 0;
  }

  lemma DoublingsBetween(radius: real)
    requires 0.28 < radius < MERCATOR_MAX / 2.0
    ensures 2 <= Doublings(radius) <= 27
  {
    hide Doublings;
    FinestCells();
    RealMulMono(0.28, radius, Pow2R(27));
    if Doublings(radius) > 27 {
      DoublingsLeast(radius, 27);
    }
    DoublingsReach(radius);
  }

  /** In closed form: the WGS84 search is complete on all meridians exactly for radii of at most a
      finest row, and from half of MERCATOR_MAX on below it. */
  lemma RadiusCompleteExactly(trig: Trig, radius: real)
    requires radius >= 0.0 && Meridional(trig)
    ensures RadiusComplete(trig, radius) <==> radius <= FINEST_RADIUS || MERCATOR_MAX / 2.0 <= radius < MERCATOR_MAX
  {
    RadiusCompleteRows(trig, radius);
    TallRowsRadii(radius);
  }

  // ---------- every centre ----------

  /** When half the bounding box is one and a half rows tall, with a little more, every centre two rows
      away from the map's edges can miss a member. */
  lemma EveryCentreMisses(q: Query, j: nat)
    requires OnColumn(q, j) && q.radius >= 0.0 && Meridional(q.ct.trig)
    requires StepFor(q.radius) <= 25 && 2 <= CentreRow(q) && CentreRow(q) + 2 < Pow2(StepFor(q.radius))
    requires 2.0 * LatHalfHeight(q.radius) >= 3.0 * Side(WGS84_LAT, StepFor(q.radius)) + 4.0 * Side(WGS84_LAT, 26)
    ensures !MeridianComplete(q)
  {
    hide FirstNorth, FirstSouth, MeridianComplete, Meridional, StepFor, Side, LatHalfHeight, Index, Corner, Pow2;
    MeridianSearchExactly(q, j);
    var c, s := CentreRow(q), StepFor(q.radius);
    if q.latitude >= Corner(c, WGS84_LAT, s) + Side(WGS84_LAT, s) / 2.0 {
      NorthInReach(q, j);
    } else {
      SouthInReach(q, j);
    }
  }

  lemma NorthInReach(q: Query, j: nat)
    requires OnColumn(q, j) && StepFor(q.radius) <= 25 && CentreRow(q) + 2 < Pow2(StepFor(q.radius))
    requires 2.0 * LatHalfHeight(q.radius) >= 3.0 * Side(WGS84_LAT, StepFor(q.radius)) + 4.0 * Side(WGS84_LAT, 26)
    requires var s := StepFor(q.radius);
      q.latitude >= Corner(CentreRow(q), WGS84_LAT, s) + Side(WGS84_LAT, s) / 2.0
    ensures InReach(q, FirstNorth(q, j))
  {
    hide Held, StepFor, Side, LatHalfHeight, Index, Corner, Lift, Pow2;
    var c, s := CentreRow(q), StepFor(q.radius);
    var i := Lift(c + 2, 26 - s);
    LiftRoom(c + 2, 26 - s);
    LiftUpTo(c + 3, Pow2(s), 26 - s);
    MapRows(s);
    CornerStep(c, WGS84_LAT, s);
    CornerStep(c + 1, WGS84_LAT, s);
    CornerFine(c + 2, s);
    CornerStep(i, WGS84_LAT, 26);
    CentreBetween(q, FirstNorth(q, j));
  }

  lemma MapRows(s: nat)
    requires s <= 26
    ensures Lift(Pow2(s), 26 - s) == Pow2(26)
  {
    LiftIsProduct(Pow2(s), 26 - s);
    Pow2Sum(s, 26 - s);
  }

  lemma SouthInReach(q: Query, j: nat)
    requires OnColumn(q, j) && StepFor(q.radius) <= 25 && CentreRow(q) >= 2
    requires 2.0 * LatHalfHeight(q.radius) >= 3.0 * Side(WGS84_LAT, StepFor(q.radius)) + 4.0 * Side(WGS84_LAT, 26)
    requires var s := StepFor(q.radius);
      q.latitude < Corner(CentreRow(q), WGS84_LAT, s) + Side(WGS84_LAT, s) / 2.0
    ensures InReach(q, FirstSouth(q, j))
  {
    hide Held, StepFor, Side, LatHalfHeight, Index, Corner, Lift, Pow2;
    var c, s := CentreRow(q), StepFor(q.radius);
    var i := Lift(c - 1, 26 - s) - 1;
    LiftRoom(c - 2, 26 - s);
    SouthOnMap(q, j);
    CornerStep(c - 1, WGS84_LAT, s);
    CornerFine(c - 1, s);
    CornerStep(i, WGS84_LAT, 26);
    CornerStep(i - 1, WGS84_LAT, 26);
    CentreBetween(q, FirstSouth(q, j));
  }

  /** So it is for 4 km, wherever the centre lies but for two rows at the map's edges. */
  lemma FourKilometresMiss(q: Query, j: nat)
    requires OnColumn(q, j) && q.radius == 4000.0 && Meridional(q.ct.trig)
    requires 2 <= CentreRow(q) && CentreRow(q) + 2 < Pow2(13)
    ensures !MeridianComplete(q)
  {
    hide Meridional, MeridianComplete, CentreRow;
    FourKilometres();
    FourKilometresTall();
    EveryCentreMisses(q, j);
  }

  lemma FourKilometresTall()
    ensures 2.0 * LatHalfHeight(4000.0) >= 3.0 * Side(WGS84_LAT, 13) + 4.0 * Side(WGS84_LAT, 26)
  {
    FinestCells();
    assert Pow2R(13) == 8192.0;
  }
}
