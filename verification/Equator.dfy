// The WGS84 search along the equator, for one centre: when it finds every member that testing them all finds.
module Equator {
  import opened Arith
  import opened Morton
  import opened Geohash
  import opened GeoRadius
  import opened Coverage
  import opened GeoIndex
  import opened GeoSearch
  import opened SearchLimits
  import opened MeridianSearch
  import opened MeridianRadii
  import opened Sphere

  /** On the equator asin(sin(distance) / cos(0)) is the distance up to a quarter turn and goes back from
      there, and the haversine distance is the shorter arc between the longitudes. */
  ghost predicate Equatorial(trig: Trig) {
    && (forall d | 0.0 <= d <= 3.0 * M_PI / 2.0 ::
          trig.lonSpread(d, 0.0) == Angle(if d <= M_PI / 2.0 then d else M_PI - d))
    && (forall a, b | WGS84_LON.Inside(a) && WGS84_LON.Inside(b) ::
          trig.haversine(0.0, a, 0.0, b) == CircArc(Abs(a - b)) * D_R * EARTH_RADIUS_IN_METERS)
  }

  /** A search from a centre on the equator. */
  ghost predicate AtEquator(q: Query) {
    q.ct.WGS84? && Equatorial(q.ct.trig) && q.latitude == 0.0 && WGS84_LON.Inside(q.longitude) && q.radius >= 0.0
  }

  /** Members on the equator. */
  ghost predicate OnEquator(q: Query, db: Zset) {
    forall e | e in db :: IsScore(e.score) && ScoreLatitude(q.ct, e.score) == 0.0
  }

  /** Every run of the search on such members that gets through finds exactly what testing every
      member finds. */
  ghost predicate EquatorComplete(q: Query) {
    forall db, limit: nat | SortedSet(db) && OnEquator(q, db) && limit >= |db| && RunDefined(q, db, limit) ::
      SameFound(Search(q, db, limit), NaiveSearch(q, db))
  }

  /** A member of the equator is wanted when it is another one and the arc between the longitudes, in
      metres, is at most the radius; the search returns that arc. */
  lemma EquatorWanted(q: Query, e: Entry)
    requires AtEquator(q) && IsScore(e.score) && ScoreLatitude(q.ct, e.score) == 0.0
    ensures var d := CircArc(Abs(q.longitude - ScoreLongitude(q.ct, e.score))) * D_R * EARTH_RADIUS_IN_METERS;
      && (Wanted(q, e) <==> Other(q.centre, e.member) && d <= q.radius)
      && FoundOf(q, e) == GeoPoint(e.member, 0.0, ScoreLongitude(q.ct, e.score), d)
  {
    hide ScoreLatitude, ScoreLongitude, MortonCode, Drop, Index, Equatorial, CircArc, Abs;
    ScoreCells(q.ct, e.score, 1);
    EquatorArc(q, ScoreLongitude(q.ct, e.score));
  }

  lemma EquatorArc(q: Query, longitude: real)
    requires AtEquator(q) && WGS84_LON.Inside(longitude)
    ensures q.ct.WGS84? && q.latitude == 0.0
    ensures q.ct.trig.haversine(0.0, q.longitude, 0.0, longitude)
         == CircArc(Abs(q.longitude - longitude)) * D_R * EARTH_RADIUS_IN_METERS
  {
    hide CircArc, Abs;
  }

  // ---------- the columns ----------

  /** The score of fine column j, on the equator, is scanned. */
  predicate ColumnHeld(q: Query, j: nat)
    requires q.OnMap()
  {
    ScansScore(q, MortonCode(Pow2(25), j))
  }

  lemma EquatorRow(s: nat)
    requires 1 <= s <= 26
    ensures Cell(0.0, WGS84_LAT, s) == Pow2(s - 1)
    ensures Drop(Pow2(25), 26 - s) == Pow2(s - 1)
    ensures Corner(Pow2(25), WGS84_LAT, 26) == 0.0
  {
    hide Corner, Index, Pow2, Drop;
    MiddleCell(WGS84_LAT, s - 1);
    MiddleCell(WGS84_LAT, 25);
    CellShift(0.0, WGS84_LAT, s, 26 - s);
  }

  /** The fine column of a member of the equator. */
  lemma MemberColumn(q: Query, e: Entry) returns (j: nat)
    requires q.ct.WGS84? && IsScore(e.score) && ScoreLatitude(q.ct, e.score) == 0.0
    ensures j < Pow2(26) && e.score == MortonCode(Pow2(25), j)
    ensures ScoreLongitude(q.ct, e.score) == Corner(j, WGS84_LON, 26)
    ensures WGS84_LON.Inside(Corner(j, WGS84_LON, 26))
  {
    hide Pow2, MortonCode, Corner, Index;
    j := OddDigits(e.score);
    ScoreRowCol(e.score);
    EquatorRow(26);
    IndexOfCorner(Pow2(25), WGS84_LAT, 26);
    IndexOfCorner(EvenDigits(e.score), WGS84_LAT, 26);
    CornerCell(j, WGS84_LON, 26);
  }

  lemma ColumnScore(q: Query, j: nat)
    requires q.ct.WGS84? && j < Pow2(26)
    ensures IsScore(MortonCode(Pow2(25), j)) && ScoreLatitude(q.ct, MortonCode(Pow2(25), j)) == 0.0
    ensures ScoreLongitude(q.ct, MortonCode(Pow2(25), j)) == Corner(j, WGS84_LON, 26)
  {
    hide MortonCode, Corner;
    EquatorRow(26);
    CellScore(q.ct, Pow2(25), j);
  }

  /** Up to a quarter turn the box reaches as far east and west as the radius does. */
  lemma QuarterTurn(q: Query)
    requires AtEquator(q) && LatHalfHeight(q.radius) <= 90.0
    ensures LonSpread(q).Angle? && LonSpread(q).radians / D_R == LatHalfHeight(q.radius)
  {
    var d := q.radius / EARTH_RADIUS_IN_METERS;
    assert d <= M_PI / 2.0;
    assert q.ct.trig.lonSpread(d, 0.0) == Angle(d);
  }

  /** Beyond it the box gets narrower again. */
  lemma BeyondQuarterTurn(q: Query)
    requires AtEquator(q) && 90.0 < LatHalfHeight(q.radius) <= 270.0
    ensures LonSpread(q).Angle? && LonSpread(q).radians / D_R == 180.0 - LatHalfHeight(q.radius)
  {
    var d := q.radius / EARTH_RADIUS_IN_METERS;
    assert M_PI / 2.0 < d <= 3.0 * M_PI / 2.0;
    assert q.ct.trig.lonSpread(d, 0.0) == Angle(M_PI - d);
  }

  // ---------- which columns are held ----------

  /** The cell before cell (2^t, j) is in the column before, well to the north, or in the row before. */
  predicate CellPrecedes(i': nat, j': nat, t: nat, j: nat) {
    || (j' + 1 == j && i' > Pow2(t) && (j % 2 == 0 ==> i' >= Pow2(t) + 3))
    || (i' + 1 == Pow2(t) && j' + 1 == j + Pow2(t))
  }

  lemma {:induction false} CellBefore(i': nat, j': nat, t: nat, j: nat)
    requires MortonCode(i', j') + 1 == MortonCode(Pow2(t), j)
    ensures CellPrecedes(i', j', t, j)
  {
    hide MortonCode;
    MortonDigits(Pow2(t), j);
    MortonDigits(i', j');
    if t == 0 || j % 2 == 1 {
      MortonInjective(Pow2(t) / 2, j / 2, i' / 2, j' / 2);
    } else {
      CellBefore(i' / 2, j' / 2, t - 1, j / 2);
    }
  }

  /** A held column is kept, or its score is the extra score of a kept cell. */
  lemma HeldKept(q: Query, j: nat) returns (i': nat, j': nat)
    requires AtEquator(q) && ColumnHeld(q, j)
    ensures var s := StepFor(q.radius);
      var m := Drop(j, 26 - s);
      || KeepsColumn(q, m)
      || ((s < 26 ==> j % 2 == 0) && CellPrecedes(i', j', s - 1, m) && KeepsRow(q, i') && KeepsColumn(q, j'))
  {
    hide MortonCode, Drop, Lift, StepFor, AxisKeeps, EvenDigits, OddDigits, BoundingBox, Cell, Pow2, CellPrecedes;
    var s := StepFor(q.radius);
    var m := Drop(j, 26 - s);
    var n := Drop(MortonCode(Pow2(25), j), 52 - 2 * s);
    EquatorRow(s);
    PrefixAt(Pow2(25), j, s);
    CellDigits(Pow2(s - 1), m);
    MortonDigits(Pow2(25), j);
    i', j' := 0, 0;
    if !KeepsColumn(q, m) {
      if s < 26 {
        LiftFours(n, 26 - s);
      }
      i', j' := EvenDigits(n - 1), OddDigits(n - 1);
      DigitsOfCode(n - 1);
      CellBefore(i', j', s - 1, m);
    }
  }

  lemma KeptHeld(q: Query, j: nat)
    requires AtEquator(q) && KeepsColumn(q, Drop(j, 26 - StepFor(q.radius)))
    ensures ColumnHeld(q, j)
  {
    hide MortonCode, Drop, Lift, StepFor, EvenDigits, OddDigits, BoundingBox, Index, Pow2, Corner;
    var s := StepFor(q.radius);
    EquatorRow(s);
    PrefixAt(Pow2(25), j, s);
    CellDigits(Pow2(s - 1), Drop(j, 26 - s));
  }

  /** Kept rows and columns are the centre's and those next to it on the circle. */
  lemma KeptNearby(q: Query)
    requires AtEquator(q)
    ensures var s := StepFor(q.radius);
      && (forall m | KeepsColumn(q, m) :: NearRow(CentreColumn(q), Pow2(s), m))
      && (forall i | KeepsRow(q, i) :: NearRow(Pow2(s - 1), Pow2(s), i))
  {
    hide Index, Corner, Next32, Around, StepFor, BoundingBox, Pow2;
    var c, s := CentreColumn(q), StepFor(q.radius);
    EquatorRow(s);
    LonBounds(q.longitude, s);
    HalfBelow(s);
    AroundCases(c, 1, s);
    AroundCases(c, -1, s);
    AroundCases(Pow2(s - 1), 1, s);
    AroundCases(Pow2(s - 1), -1, s);
  }

  lemma HalfBelow(s: nat)
    requires 1 <= s
    ensures Pow2(s) == 2 * Pow2(s - 1)
  {
  }

  // ---------- counting columns past the date line ----------

  /** Fine columns are counted on past the date line, for one more turn. */
  predicate HeldAt(q: Query, j: nat)
    requires q.OnMap()
  {
    ColumnHeld(q, j % Pow2(26))
  }

  lemma FullTurn(i: nat, s: nat)
    ensures Corner(i + Pow2(s), WGS84_LON, s) == Corner(i, WGS84_LON, s) + 360.0
  {
    hide Corner, Side, Pow2;
    LastCorner(WGS84_LON, s);
    CornerStep(Pow2(s), WGS84_LON, s);
    CornerStep(i, WGS84_LON, s);
    CornerStep(i + Pow2(s), WGS84_LON, s);
    SumTimes(i as real, Pow2(s) as real, Side(WGS84_LON, s));
  }

  /** The longitudes of the coarse column of a fine one. */
  lemma CoarseColumn(j: nat, s: nat)
    requires s <= 26
    ensures var m := Drop(j, 26 - s);
      Corner(m, WGS84_LON, s) <= Corner(j, WGS84_LON, 26) < Corner(m + 1, WGS84_LON, s)
  {
    hide Corner, Side, Drop, Lift;
    var m, k := Drop(j, 26 - s), 26 - s;
    DropIsBlock(j, k, m);
    CornerFiner(m, WGS84_LON, s, k);
    CornerFiner(m + 1, WGS84_LON, s, k);
    CornerMono(Lift(m, k), j, WGS84_LON, 26);
    CornerStep(j, WGS84_LON, 26);
    CornerMono(j + 1, Lift(m + 1, k), WGS84_LON, 26);
  }

  lemma TurnedColumn(j: nat, s: nat)
    requires s <= 26 && j < 2 * Pow2(26)
    ensures j >= Pow2(26) ==> j % Pow2(26) == j - Pow2(26) && Drop(j, 26 - s) == Drop(j - Pow2(26), 26 - s) + Pow2(s)
    ensures j < Pow2(26) ==> j % Pow2(26) == j && Drop(j, 26 - s) < Pow2(s)
  {
    hide Drop, Pow2, Lift;
    var n, k := Pow2(26), 26 - s;
    if j >= n {
      QuotientUnique(j, n, 1, j - n);
      var m := Drop(j - n, k);
      DropIsBlock(j - n, k, m);
      DropIsBlock(j, k, m + Pow2(s));
      LiftTurned(m, s);
      LiftTurned(m + 1, s);
    } else {
      QuotientUnique(j, n, 0, j);
      DropIsBlock(j, k, Drop(j, k));
      LiftOnMap(Drop(j, k), s);
    }
  }

  lemma LiftTurned(m: nat, s: nat)
    requires s <= 26
    ensures Lift(m + Pow2(s), 26 - s) == Lift(m, 26 - s) + Pow2(26)
  {
    hide Lift, Pow2;
    LiftIsProduct(m, 26 - s);
    LiftIsProduct(m + Pow2(s), 26 - s);
    LiftIsProduct(Pow2(s), 26 - s);
    MapRows(s);
    MulAdd(m, Pow2(s), Pow2(26 - s));
  }

  // ---------- one centre ----------

  /** The first fine column to the east of the columns next to the centre's, or the one after it where the
      first one's score is the extra score of a scanned interval. */
  function FirstEast(q: Query): nat
    requires AtEquator(q)
  {
    var j := Lift(CentreColumn(q) + 2, 26 - StepFor(q.radius));
    if HeldAt(q, j) then j + 1 else j
  }

  /** The first one to the west of them, a full turn on. */
  function FirstWest(q: Query): nat
    requires AtEquator(q)
  {
    var m := CentreColumn(q) + Pow2(StepFor(q.radius)) - 1;
    LiftMono(0, m, 26 - StepFor(q.radius));
    Lift(m, 26 - StepFor(q.radius)) - 1
  }

  predicate EastInReach(q: Query)
    requires AtEquator(q)
  {
    Corner(FirstEast(q), WGS84_LON, 26) - q.longitude <= LatHalfHeight(q.radius)
  }

  predicate WestInReach(q: Query)
    requires AtEquator(q)
  {
    q.longitude + 360.0 - Corner(FirstWest(q), WGS84_LON, 26) <= LatHalfHeight(q.radius)
  }

  lemma OneTurn(j: nat)
    requires Corner(j, WGS84_LON, 26) < 540.0
    ensures j < 2 * Pow2(26)
  {
    hide Corner, Pow2;
    FullTurn(Pow2(26), 26);
    LastCorner(WGS84_LON, 26);
    if j >= 2 * Pow2(26) {
      CornerMono(2 * Pow2(26), j, WGS84_LON, 26);
    }
  }

  /** Column m of step s, counted past the date line. */
  function Wrapped(m: nat, s: nat): nat { if m < Pow2(s) then m else m - Pow2(s) }

  lemma HeldByColumn(q: Query, j: nat)
    requires AtEquator(q) && j < 2 * Pow2(26)
    requires KeepsColumn(q, Wrapped(Drop(j, 26 - StepFor(q.radius)), StepFor(q.radius)))
    ensures HeldAt(q, j)
  {
    hide Drop, StepFor, ColumnHeld, KeepsColumn, Pow2;
    TurnedColumn(j, StepFor(q.radius));
    KeptHeld(q, j % Pow2(26));
  }

  lemma EastKept(q: Query, m: nat)
    requires AtEquator(q) && LatHalfHeight(q.radius) <= 90.0
    requires m == CentreColumn(q) || m == CentreColumn(q) + 1
    requires Corner(m, WGS84_LON, StepFor(q.radius)) <= q.longitude + LatHalfHeight(q.radius)
    ensures KeepsColumn(q, Wrapped(m, StepFor(q.radius)))
  {
    hide Corner, Side, Index, StepFor, KeepsColumn, LatHalfHeight, Pow2, Around, LonSpread;
    var c, s := CentreColumn(q), StepFor(q.radius);
    LonBounds(q.longitude, s);
    AroundCases(c, 1, s);
    QuarterTurn(q);
    KeptColumns(q, Wrapped(m, s));
  }

  /** A fine column to the east within the radius is held, if the first one that can be missed is out of reach. */
  lemma EastScanned(q: Query, j: nat)
    requires AtEquator(q) && LatHalfHeight(q.radius) <= 90.0 && !EastInReach(q)
    requires 0.0 <= Corner(j, WGS84_LON, 26) - q.longitude <= LatHalfHeight(q.radius)
    ensures HeldAt(q, j)
  {
    hide Corner, Side, Index, Drop, Lift, StepFor, HeldAt, KeepsColumn, LatHalfHeight, Pow2;
    var c, s := CentreColumn(q), StepFor(q.radius);
    var m := Drop(j, 26 - s);
    LonBounds(q.longitude, s);
    CoarseColumn(j, s);
    OneTurn(j);
    if m < c {
      CornerMono(m + 1, c, WGS84_LON, s);
    } else if m >= c + 2 {
      DropIsBlock(j, 26 - s, m);
      LiftUpTo(c + 2, m, 26 - s);
      if FirstEast(q) <= j {
        CornerMono(FirstEast(q), j, WGS84_LON, 26);
      }
    } else {
      EastKept(q, m);
      HeldByColumn(q, j);
    }
  }

  lemma WestKept(q: Query, m: nat)
    requires AtEquator(q) && LatHalfHeight(q.radius) <= 90.0
    requires var n := Pow2(StepFor(q.radius)); m == CentreColumn(q) + n || m == CentreColumn(q) + n - 1
    requires q.longitude + 360.0 - LatHalfHeight(q.radius) < Corner(m + 1, WGS84_LON, StepFor(q.radius))
    ensures KeepsColumn(q, Wrapped(m, StepFor(q.radius)))
  {
    hide Corner, Side, Index, StepFor, KeepsColumn, LatHalfHeight, Pow2, Around, LonSpread;
    var c, s := CentreColumn(q), StepFor(q.radius);
    LonBounds(q.longitude, s);
    AroundCases(c, -1, s);
    FullTurn(c, s);
    QuarterTurn(q);
    KeptColumns(q, Wrapped(m, s));
  }

  lemma WestScanned(q: Query, j: nat)
    requires AtEquator(q) && LatHalfHeight(q.radius) <= 90.0 && !WestInReach(q)
    requires 0.0 <= q.longitude + 360.0 - Corner(j, WGS84_LON, 26) <= LatHalfHeight(q.radius)
    ensures HeldAt(q, j)
  {
    hide Corner, Side, Index, Drop, Lift, StepFor, HeldAt, KeepsColumn, LatHalfHeight, Pow2;
    var c, s := CentreColumn(q), StepFor(q.radius);
    var m, n := Drop(j, 26 - s), Pow2(s);
    LonBounds(q.longitude, s);
    CoarseColumn(j, s);
    OneTurn(j);
    FullTurn(c + 1, s);
    DropIsBlock(j, 26 - s, m);
    if m > c + n {
      CornerMono(c + 1 + n, m, WGS84_LON, s);
    } else if m + 1 < c + n {
      LiftUpTo(m + 1, c + n - 1, 26 - s);
      CornerMono(j, FirstWest(q), WGS84_LON, 26);
    } else {
      WestKept(q, m);
      HeldByColumn(q, j);
    }
  }

  /** Where neither first column is in reach, every wanted member of the equator is scanned. */
  lemma WantedScanned(q: Query, e: Entry)
    requires AtEquator(q) && LatHalfHeight(q.radius) <= 90.0 && !EastInReach(q) && !WestInReach(q)
    requires IsScore(e.score) && ScoreLatitude(q.ct, e.score) == 0.0 && Wanted(q, e)
    ensures Scanned(Boxes(q.Areas()), e)
  {
    hide Corner, ScoreLatitude, ScoreLongitude, Wanted, LatHalfHeight, Pow2, MortonCode, ColumnHeld, EastInReach,
         WestInReach, Areas, Boxes, Scanned;
    var j := MemberColumn(q, e);
    EquatorWanted(q, e);
    ArcWithin(CircArc(Abs(q.longitude - Corner(j, WGS84_LON, 26))), q.radius);
    FullTurn(j, 26);
    var v, b := q.longitude, Corner(j, WGS84_LON, 26);
    Turned(j);
    if 0.0 <= b - v <= 180.0 {
      EastScanned(q, j);
    } else if b < v && v - b > 180.0 {
      EastScanned(q, j + Pow2(26));
    } else if b < v {
      WestScanned(q, j + Pow2(26));
    } else {
      WestScanned(q, j);
    }
    HeldScanned(q, j, e);
  }

  lemma Turned(j: nat)
    requires j < Pow2(26)
    ensures j % Pow2(26) == j && (j + Pow2(26)) % Pow2(26) == j
  {
    hide Pow2;
    QuotientUnique(j, Pow2(26), 0, j);
    QuotientUnique(j + Pow2(26), Pow2(26), 1, j);
  }

  lemma HeldScanned(q: Query, j: nat, e: Entry)
    requires q.OnMap() && e.score == MortonCode(Pow2(25), j)
    ensures ColumnHeld(q, j) <==> Scanned(Boxes(q.Areas()), e)
  {
    hide MortonCode, Pow2, Areas, Boxes, Scanned, ScansScore;
    ScannedExactly(q, e);
  }

  /** A column in reach that no scanned interval holds: with a member there and one at the centre's own
      position stored, the search gets through and misses the first. */
  lemma ColumnMissed(q: Query, j: nat)
    requires AtEquator(q) && j < Pow2(26) && !ColumnHeld(q, j)
    requires CircArc(Abs(q.longitude - Corner(j, WGS84_LON, 26))) <= LatHalfHeight(q.radius)
    requires Side(WGS84_LON, 26) <= LatHalfHeight(q.radius)
    ensures !EquatorComplete(q)
  {
    hide Areas, Boxes, Keeps, PointOf, Scanned, ColumnHeld, Corner, Side, Cell, Search, NaiveSearch, RunDefined,
         OwnScore, StepFor, Pow2, MortonCode, Wanted, ScoreLatitude, ScoreLongitude, LatHalfHeight;
    var e := Entry(q.centre + "'", MortonCode(Pow2(25), j));
    var n := Entry(q.centre + "''", OwnScore(q));
    ColumnScore(q, j);
    ReachWanted(q, e);
    HeldScanned(q, j, e);
    OwnOnEquator(q);
    ReachWanted(q, n);
    OwnScanned(q, n.member);
    MissedMember(q, n, e);
    assert OnEquator(q, Couple(n, e));
  }

  lemma ReachWanted(q: Query, e: Entry)
    requires AtEquator(q) && IsScore(e.score) && ScoreLatitude(q.ct, e.score) == 0.0 && |e.member| != |q.centre|
    requires CircArc(Abs(q.longitude - ScoreLongitude(q.ct, e.score))) <= LatHalfHeight(q.radius)
    ensures Keeps(q, PointOf(q.ct, e))
  {
    hide ScoreLatitude, ScoreLongitude, LatHalfHeight, Keeps, PointOf, Wanted, FoundOf;
    EquatorWanted(q, e);
    WantedKept(q, e);
    assert Other(q.centre, e.member);
    ArcWithin(CircArc(Abs(q.longitude - ScoreLongitude(q.ct, e.score))), q.radius);
  }

  lemma OwnOnEquator(q: Query)
    requires AtEquator(q)
    ensures IsScore(OwnScore(q)) && ScoreLatitude(q.ct, OwnScore(q)) == 0.0
    ensures CircArc(Abs(q.longitude - ScoreLongitude(q.ct, OwnScore(q)))) <= Side(WGS84_LON, 26)
  {
    hide Corner, Side, Index, OwnScore, ScoreLatitude, ScoreLongitude, Pow2;
    OwnPosition(q);
    EquatorRow(26);
    NearEdges(q.longitude, WGS84_LON);
    SideSizes(26);
  }

  /** For every centre on the equator and every radius up to a quarter of the circumference: the runs of the
      search that get through find exactly the members within the radius if and only if neither the first
      fine column east of the scanned columns nor the first one west of them is within the radius. */
  lemma EquatorSearchExactly(q: Query)
    requires AtEquator(q) && q.radius <= 90.0 * D_R * EARTH_RADIUS_IN_METERS
    ensures EquatorComplete(q) <==> !EastInReach(q) && !WestInReach(q)
  {
    hide FirstEast, FirstWest, EastInReach, WestInReach, Search, NaiveSearch, RunDefined, Equatorial, AtEquator,
         SortedSet, OnEquator;
    HeightInMetres(q.radius, 90.0);
    if EastInReach(q) {
      EastMissed(q);
    } else if WestInReach(q) {
      WestMissed(q);
    } else {
      forall db, limit: nat | SortedSet(db) && OnEquator(q, db) && limit >= |db| && RunDefined(q, db, limit)
        ensures SameFound(Search(q, db, limit), NaiveSearch(q, db))
      {
        EquatorRefines(q, db, limit);
      }
    }
  }

  lemma EquatorRefines(q: Query, db: Zset, limit: nat)
    requires AtEquator(q) && LatHalfHeight(q.radius) <= 90.0 && !EastInReach(q) && !WestInReach(q)
    requires OnEquator(q, db) && limit >= |db|
    ensures SameFound(Search(q, db, limit), NaiveSearch(q, db))
  {
    hide AtEquator, EastInReach, WestInReach, Search, NaiveSearch, Keeps, PointOf, Scanned, Areas, Boxes, Wanted,
         ScoreLatitude;
    forall e | e in db && Keeps(q, PointOf(q.ct, e))
      ensures Scanned(Boxes(q.Areas()), e)
    {
      WantedKept(q, e);
      WantedScanned(q, e);
    }
    ScannedRefinesNaive(q, db, limit);
  }

  lemma EastMissed(q: Query)
    requires AtEquator(q) && LatHalfHeight(q.radius) <= 90.0 && EastInReach(q)
    ensures !EquatorComplete(q)
  {
    hide Corner, Side, Index, Lift, StepFor, HeldAt, LatHalfHeight, Pow2, EquatorComplete;
    var j := FirstEast(q);
    EastAway(q);
    SideSizes(StepFor(q.radius));
    OneTurn(j);
    EastNotHeld(q);
    TurnMissed(q, j);
  }

  lemma WestMissed(q: Query)
    requires AtEquator(q) && LatHalfHeight(q.radius) <= 90.0 && WestInReach(q)
    ensures !EquatorComplete(q)
  {
    hide Corner, Side, Index, Lift, StepFor, HeldAt, LatHalfHeight, Pow2, EquatorComplete;
    var j := FirstWest(q);
    WestAway(q);
    SideSizes(StepFor(q.radius));
    OneTurn(j);
    WestNotHeld(q);
    TurnMissed(q, j);
  }

  /** The first columns are more than a column's width away. */
  lemma EastAway(q: Query)
    requires AtEquator(q)
    ensures Corner(FirstEast(q), WGS84_LON, 26) - q.longitude > Side(WGS84_LON, StepFor(q.radius))
    ensures Side(WGS84_LON, StepFor(q.radius)) >= Side(WGS84_LON, 26) > 0.0
  {
    hide Corner, Side, Index, Lift, StepFor, HeldAt, Pow2;
    var c, s := CentreColumn(q), StepFor(q.radius);
    LonBounds(q.longitude, s);
    CornerStep(c + 1, WGS84_LON, s);
    CornerFiner(c + 2, WGS84_LON, s, 26 - s);
    CornerMono(Lift(c + 2, 26 - s), FirstEast(q), WGS84_LON, 26);
    ColumnsNarrow(s, 26);
  }

  lemma WestAway(q: Query)
    requires AtEquator(q)
    ensures q.longitude + 360.0 - Corner(FirstWest(q), WGS84_LON, 26) > Side(WGS84_LON, StepFor(q.radius))
    ensures Side(WGS84_LON, StepFor(q.radius)) >= Side(WGS84_LON, 26) > 0.0
  {
    hide Corner, Side, Index, Lift, StepFor, Pow2;
    var c, s := CentreColumn(q), StepFor(q.radius);
    var m := c + Pow2(s) - 1;
    LonBounds(q.longitude, s);
    FullTurn(c, s);
    CornerStep(m, WGS84_LON, s);
    CornerFiner(m, WGS84_LON, s, 26 - s);
    CornerStep(FirstWest(q), WGS84_LON, 26);
    ColumnsNarrow(s, 26);
  }

  lemma {:induction false} ColumnsNarrow(a: nat, b: nat)
    requires a <= b
    ensures 0.0 < Side(WGS84_LON, b) <= Side(WGS84_LON, a)
    decreases b
  {
    CornerStep(0, WGS84_LON, b);
    if a < b {
      ColumnsNarrow(a, b - 1);
      HalfQuotient(WGS84_LON.Width(), Pow2R(b - 1));
    }
  }

  /** A column counted past the date line that is in reach to the east or west and not held. */
  lemma TurnMissed(q: Query, j: nat)
    requires AtEquator(q) && j < 2 * Pow2(26) && !HeldAt(q, j)
    requires Side(WGS84_LON, 26) <= LatHalfHeight(q.radius) <= 90.0
    requires || 0.0 <= Corner(j, WGS84_LON, 26) - q.longitude <= LatHalfHeight(q.radius)
             || 0.0 <= q.longitude + 360.0 - Corner(j, WGS84_LON, 26) <= LatHalfHeight(q.radius)
    ensures !EquatorComplete(q)
  {
    hide Corner, Side, ColumnHeld, LatHalfHeight, Pow2, EquatorComplete;
    if j < Pow2(26) {
      Turned(j);
      ColumnMissed(q, j);
    } else {
      Turned(j - Pow2(26));
      FullTurn(j - Pow2(26), 26);
      ColumnMissed(q, j - Pow2(26));
    }
  }

  /** Away from the finest step a box holds no odd column but those it keeps. */
  lemma OddNotHeld(q: Query, j: nat)
    requires AtEquator(q) && StepFor(q.radius) < 26 && j < 2 * Pow2(26) && j % 2 == 1
    requires var s := StepFor(q.radius); !NearRow(CentreColumn(q), Pow2(s), Wrapped(Drop(j, 26 - s), s))
    ensures !HeldAt(q, j)
  {
    hide Index, StepFor, KeepsColumn, KeepsRow, NearRow, ColumnHeld, Drop, CellPrecedes, Pow2;
    HalfBelow(26);
    TurnedColumn(j, StepFor(q.radius));
    if HeldAt(q, j) {
      var i', j' := HeldKept(q, j % Pow2(26));
      KeptNearby(q);
    }
  }

  /** At the finest step a column is held only if it or the one before it, or one half a turn away, is kept. */
  lemma FineNotHeld(q: Query, j: nat)
    requires AtEquator(q) && StepFor(q.radius) == 26 && j < 2 * Pow2(26)
    requires var c, n, m := CentreColumn(q), Pow2(26), Wrapped(j, 26);
      && !NearRow(c, n, m) && (m > 0 ==> !NearRow(c, n, m - 1)) && !NearRow(c, n, m + n / 2 - 1)
    ensures !HeldAt(q, j)
  {
    hide Index, KeepsColumn, KeepsRow, NearRow, ColumnHeld, Pow2;
    HalfBelow(26);
    TurnedColumn(j, 26);
    DropNothing(j % Pow2(26));
    if HeldAt(q, j) {
      var i', j' := HeldKept(q, j % Pow2(26));
      KeptNearby(q);
    }
  }

  lemma EastNotHeld(q: Query)
    requires AtEquator(q) && StepFor(q.radius) >= 2 && FirstEast(q) < 2 * Pow2(26)
    ensures !HeldAt(q, FirstEast(q))
  {
    hide Index, Lift, StepFor, HeldAt, Pow2, Drop, NearRow;
    var c, s := CentreColumn(q), StepFor(q.radius);
    if HeldAt(q, Lift(c + 2, 26 - s)) {
      LonBounds(q.longitude, s);
      Pow2Sizes(s);
      if s < 26 {
        SecondFine(c + 2, 26 - s);
        TwoEast(c, Pow2(s));
        OddNotHeld(q, FirstEast(q));
      } else {
        HalfBelow(26);
        LiftZero(c + 2);
        ThreeEast(c, Pow2(25));
        FineNotHeld(q, FirstEast(q));
      }
    }
  }

  /** The second fine column of a coarse one is odd. */
  lemma SecondFine(m: nat, k: nat)
    requires k > 0
    ensures (Lift(m, k) + 1) % 2 == 1 && Drop(Lift(m, k) + 1, k) == m
  {
    hide Lift, Drop;
    LiftRoom(m, k);
    DropIsBlock(Lift(m, k) + 1, k, m);
  }

  lemma TwoEast(c: nat, n: nat)
    requires c < n && n >= 4
    ensures !NearRow(c, n, if c + 2 < n then c + 2 else c + 2 - n)
  {
  }

  lemma ThreeEast(c: nat, h: nat)
    requires c < 2 * h && h >= 4
    ensures var n := 2 * h;
      var m: nat := if c + 3 < n then c + 3 else c + 3 - n;
      !NearRow(c, n, m) && (m > 0 ==> !NearRow(c, n, m - 1)) && !NearRow(c, n, m + h - 1)
  {
  }

  lemma WestNotHeld(q: Query)
    requires AtEquator(q) && StepFor(q.radius) >= 2 && FirstWest(q) < 2 * Pow2(26)
    ensures !HeldAt(q, FirstWest(q))
  {
    hide Index, Lift, StepFor, HeldAt, Pow2, Drop, NearRow;
    var c, s := CentreColumn(q), StepFor(q.radius);
    LonBounds(q.longitude, s);
    Pow2Sizes(s);
    if s < 26 {
      LastFine(c + Pow2(s) - 2, 26 - s);
      TwoWest(c, Pow2(s));
      OddNotHeld(q, FirstWest(q));
    } else {
      HalfBelow(26);
      LiftZero(c + Pow2(26) - 1);
      Pow2Exceeds(25);
      TwoWestFine(c, Pow2(25));
      FineNotHeld(q, FirstWest(q));
    }
  }

  /** The last fine column of a coarse one is odd. */
  lemma LastFine(m: nat, k: nat)
    requires k > 0
    ensures Lift(m + 1, k) >= 1
    ensures (Lift(m + 1, k) - 1) % 2 == 1 && Drop(Lift(m + 1, k) - 1, k) == m
  {
    hide Lift, Drop;
    LiftRoom(m, k);
    LiftRoom(m + 1, k);
    DropIsBlock(Lift(m + 1, k) - 1, k, m);
  }

  lemma TwoWest(c: nat, n: nat)
    requires c < n && n >= 4
    ensures !NearRow(c, n, if c >= 2 then c - 2 else c + n - 2)
  {
  }

  lemma TwoWestFine(c: nat, h: nat)
    requires c < 2 * h && h >= 8
    ensures var n := 2 * h;
      var m: nat := if c >= 2 then c - 2 else c + n - 2;
      !NearRow(c, n, m) && (m > 0 ==> !NearRow(c, n, m - 1)) && !NearRow(c, n, m + h - 1)
  {
  }
}
