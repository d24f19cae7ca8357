// The WGS84 search along a meridian: for every centre, when it finds every member that testing them
// all finds.
module MeridianSearch {
  import opened Arith
  import opened Words
  import opened Morton
  import opened Geohash
  import opened GeoRadius
  import opened Coverage
  import opened GeoIndex
  import opened GeoSearch
  import opened SearchLimits

  function Abs(x: real): real { if x < 0.0 then -x else x }

  /** Along a meridian the haversine distance is the arc between the latitudes. */
  ghost predicate Meridional(trig: Trig) {
    forall a, b, longitude | WGS84_LAT.Inside(a) && WGS84_LAT.Inside(b) ::
      trig.haversine(a, longitude, b, longitude) == Abs(a - b) * D_R * EARTH_RADIUS_IN_METERS
  }

  /** A search of members on the meridian of a centre of the world. */
  ghost predicate OnMeridian(q: Query, db: Zset) {
    && q.ct.InWorld(q.latitude, q.longitude)
    && forall e | e in db :: IsScore(e.score) && ScoreLongitude(q.ct, e.score) == q.longitude
  }

  /** Every run of the search on such members that gets through finds exactly what testing every
      member finds. */
  ghost predicate MeridianComplete(q: Query) {
    forall db, limit: nat | SortedSet(db) && OnMeridian(q, db) && limit >= |db| && RunDefined(q, db, limit) ::
      SameFound(Search(q, db, limit), NaiveSearch(q, db))
  }

  /** The row of the centre at the search's step. */
  function CentreRow(q: Query): nat
    requires q.ct.WGS84? && q.ct.InWorld(q.latitude, q.longitude)
  {
    Cell(q.latitude, WGS84_LAT, StepFor(q.radius))
  }

  /** A member in fine row i, on the map, is within the radius. */
  predicate InReach(q: Query, i: int) {
    0 <= i < Pow2(26) && Abs(q.latitude - Corner(i, WGS84_LAT, 26)) <= LatHalfHeight(q.radius)
  }

  /** The score of fine row i, in fine column j, is scanned. */
  predicate Held(q: Query, i: nat, j: nat)
    requires q.OnMap()
  {
    ScansScore(q, MortonCode(i, j))
  }

  /** The first fine row to the north of the rows next to the centre's, or the one after it where the
      first one's score is the extra score of a scanned interval. */
  function FirstNorth(q: Query, j: nat): nat
    requires q.ct.WGS84? && q.ct.InWorld(q.latitude, q.longitude)
  {
    var i := Lift(CentreRow(q) + 2, 26 - StepFor(q.radius));
    if Held(q, i, j) then i + 1 else i
  }

  /** The same to the south; negative where the map ends before. */
  function FirstSouth(q: Query, j: nat): int
    requires q.ct.WGS84? && q.ct.InWorld(q.latitude, q.longitude)
  {
    var c := CentreRow(q);
    if c < 2 then -1 else
      var i := Lift(c - 1, 26 - StepFor(q.radius)) - 1;
      if i >= 0 && Held(q, i, j) then i - 1 else i
  }

  /** The centre lies on the meridian of fine column j; on no other meridian are members stored. */
  ghost predicate OnColumn(q: Query, j: nat) {
    && q.ct.WGS84? && q.ct.InWorld(q.latitude, q.longitude)
    && j < Pow2(26) && q.longitude == Corner(j, WGS84_LON, 26)
  }

  /** An arc is within the radius exactly when the latitudes are within the box's half-height. */
  lemma ArcWithin(x: real, radius: real)
    ensures x * D_R * EARTH_RADIUS_IN_METERS <= radius <==> x <= LatHalfHeight(radius)
  {
  }

  // ---------- members within the radius ----------

  lemma KeptNear(q: Query, e: Entry)
    requires q.ct.WGS84? && Meridional(q.ct.trig) && OnMeridian(q, [e]) && Keeps(q, PointOf(q.ct, e))
    ensures WGS84_LAT.Inside(ScoreLatitude(q.ct, e.score))
    ensures Abs(q.latitude - ScoreLatitude(q.ct, e.score)) <= LatHalfHeight(q.radius)
  {
    hide ScoreLatitude, ScoreLongitude, LatHalfHeight, Abs, IsCentre;
    assert e in [e];
    ScoreCells(q.ct, e.score, 1);
    ArcWithin(Abs(q.latitude - ScoreLatitude(q.ct, e.score)), q.radius);
  }

  lemma ArcKept(q: Query, e: Entry)
    requires q.ct.WGS84? && Meridional(q.ct.trig) && |q.centre| != |e.member|
    requires WGS84_LAT.Inside(q.latitude) && WGS84_LAT.Inside(ScoreLatitude(q.ct, e.score))
    requires ScoreLongitude(q.ct, e.score) == q.longitude
    requires Abs(q.latitude - ScoreLatitude(q.ct, e.score)) <= LatHalfHeight(q.radius)
    ensures Keeps(q, PointOf(q.ct, e))
  {
    hide ScoreLatitude, ScoreLongitude, LatHalfHeight;
    ArcWithin(Abs(q.latitude - ScoreLatitude(q.ct, e.score)), q.radius);
  }

  // ---------- corners and scores of the finest grid ----------

  /** A coarse corner is a corner of the finer grid. */
  lemma {:induction false} CornerFiner(i: nat, range: Range, step: nat, k: nat)
    requires range.Proper()
    ensures Corner(Lift(i, k), range, step + k) == Corner(i, range, step)
  {
    if k > 0 {
      CornerFiner(i, range, step, k - 1);
      CornerTwice(Lift(i, k - 1), range, step + k - 1);
    }
  }

  lemma CornerTwice(i: nat, range: Range, step: nat)
    requires range.Proper()
    ensures Corner(2 * i, range, step + 1) == Corner(i, range, step)
  {
    hide Corner;
    CornerStep(i, range, step);
    CornerStep(2 * i, range, step + 1);
    HalfQuotient(range.Width(), Pow2R(step));
    TwiceProduct(i as real, Side(range, step + 1));
  }

  lemma LiftFours(n: nat, k: nat)
    requires k > 0
    ensures Lift(n, 2 * k) % 4 == 0
  {
    var j := 2 * k - 2;
    var m := Lift(n, j);
    assert Lift(n, j + 1) == 2 * m;
    assert Lift(n, j + 2) == 4 * m;
  }

  lemma HighFours(h: Hash)
    requires CellSized(h) && h.step < 26
    ensures HighScore(h) % 4 == 0
  {
    hide Val, Lift, Pow2;
    AlignVal(h);
    LiftFours(Val(h.bits) + 1, 26 - h.step);
  }

  // ---------- the rows a scanned box can hold ----------

  /** Row r is the centre's row c, a row next to it, or at the other edge of the map of n rows. */
  predicate NearRow(c: nat, n: nat, r: nat) {
    c < n && (r == c || r == c + 1 || r + 1 == c || (c == n - 1 && r == 0) || (c == 0 && r == n - 1))
  }

  lemma ScannedRow(q: Query, h: Hash)
    requires q.ct.WGS84? && q.ct.InWorld(q.latitude, q.longitude)
    requires h in Boxes(q.Areas()) && !HashIsZero(h)
    ensures NearRow(CentreRow(q), Pow2(StepFor(q.radius)), Row(h.bits))
  {
    hide Areas, Boxes, Row, Index;
    var s := StepFor(q.radius);
    IndexBounds(q.latitude, WGS84_LAT, s);
    ScannedRows(q, h);
    AroundCases(CentreRow(q), 1, s);
    AroundCases(CentreRow(q), -1, s);
  }

  /** A box in row r can hold the score of the fine cell (i, j): it is a score of the box, or its extra
      score. That one is a multiple of four below the finest step, and the next cell's at the finest. */
  predicate CanHold(s: nat, r: nat, i: nat, j: nat)
    requires s <= 26
  {
    r == Drop(i, 26 - s) || (if s < 26 then i % 2 == 0 && j % 2 == 0 else RowPrecedes(r, i, j))
  }

  lemma HeldRow(h: Hash, i: nat, j: nat, member: string)
    requires 1 <= h.step <= 26 && CellSized(h) && HasScore(h, Entry(member, MortonCode(i, j)))
    ensures CanHold(h.step, Row(h.bits), i, j)
  {
    hide Row, Col, MortonCode, Lift, Pow2, Val, Drop;
    var k := 26 - h.step;
    ScanInterval(h, MortonCode(i, j));
    CodeOfRowCol(h.bits);
    MortonDigits(i, j);
    if MortonCode(i, j) != HighScore(h) {
      MortonPrefix(i, j, k);
      MortonInjective(Drop(i, k), Drop(j, k), Row(h.bits), Col(h.bits));
    } else if k > 0 {
      HighFours(h);
    } else {
      HighIsNext(h);
      RowBefore(i, j, Row(h.bits), Col(h.bits));
    }
  }

  lemma HighIsNext(h: Hash)
    requires CellSized(h) && h.step == 26
    ensures HighScore(h) == Val(h.bits) + 1
  {
    hide Val, Pow2, Align52, Lift;
    AlignVal(h);
    LiftZero(Val(h.bits) + 1);
  }

  lemma HeldNear(q: Query, i: nat, j: nat) returns (r: nat)
    requires q.ct.WGS84? && q.ct.InWorld(q.latitude, q.longitude) && Held(q, i, j)
    ensures NearRow(CentreRow(q), Pow2(StepFor(q.radius)), r) && CanHold(StepFor(q.radius), r, i, j)
  {
    hide Areas, Boxes, Row, CentreRow, StepFor, Drop, Pow2, MortonCode, NearRow, CanHold, ScansScore;
    ScannedExactly(q, Entry("", MortonCode(i, j)));
    var h :| h in Boxes(q.Areas()) && HasScore(h, Entry("", MortonCode(i, j)));
    r := Row(h.bits);
    QueryBoxes(q, h);
    ScannedRow(q, h);
    HeldRow(h, i, j, "");
  }

  /** Powers of two are even, and those beyond two are at least four. */
  lemma Pow2Sizes(s: nat)
    requires 1 <= s
    ensures s == 1 ==> Pow2(s) == 2
    ensures s >= 2 ==> Pow2(s) >= 4
    ensures s == 26 ==> Pow2(s) >= 8
  {
    if s >= 2 {
      Pow2Mono(2, s);
    }
    if s >= 3 {
      Pow2Mono(3, s);
    }
  }

  lemma LiftRoom(n: nat, k: nat)
    requires k > 0
    ensures Lift(n, k) % 2 == 0 && Lift(n, k) + 2 <= Lift(n + 1, k)
  {
    LiftMono(n, n + 1, k - 1);
  }

  lemma LiftOnMap(n: nat, s: nat)
    requires s <= 26 && Lift(n, 26 - s) < Pow2(26)
    ensures n < Pow2(s)
  {
    LiftIsProduct(n, 26 - s);
    LiftIsProduct(Pow2(s), 26 - s);
    Pow2Sum(s, 26 - s);
    if n >= Pow2(s) {
      MulMono(Pow2(s), n, Pow2(26 - s));
    }
  }

  lemma NorthNotHeld(q: Query, j: nat)
    requires q.ct.WGS84? && q.ct.InWorld(q.latitude, q.longitude) && FirstNorth(q, j) < Pow2(26)
    ensures !Held(q, FirstNorth(q, j), j)
  {
    hide CentreRow, Held, Pow2, Drop, Lift;
    var c, s := CentreRow(q), StepFor(q.radius);
    var i := Lift(c + 2, 26 - s);
    if Held(q, i, j) && Held(q, i + 1, j) {
      var r := HeldNear(q, i + 1, j);
      Pow2Sizes(s);
      LiftOnMap(c + 2, s);
      if s < 26 {
        LiftRoom(c + 2, 26 - s);
        DropIsBlock(i + 1, 26 - s, c + 2);
      } else {
        LiftZero(c + 2);
        DropNothing(i + 1);
      }
      assert false;
    }
  }

  lemma LiftZero(n: nat)
    ensures Lift(n, 0) == n
  {
  }

  lemma DropNothing(n: nat)
    ensures Drop(n, 0) == n
  {
  }

  lemma SouthNotHeld(q: Query, j: nat)
    requires q.ct.WGS84? && q.ct.InWorld(q.latitude, q.longitude) && FirstSouth(q, j) >= 0
    ensures !Held(q, FirstSouth(q, j), j)
  {
    hide CentreRow, Held, Pow2, Drop, Lift;
    var c, s := CentreRow(q), StepFor(q.radius);
    var i := Lift(c - 1, 26 - s) - 1;
    if Held(q, i, j) {
      var r := HeldNear(q, i, j);
      Pow2Sizes(s);
      if s < 26 {
        LiftRoom(c - 2, 26 - s);
        LiftRoom(c - 1, 26 - s);
        DropIsBlock(i, 26 - s, c - 2);
        assert false;
      } else {
        LiftZero(c - 1);
        DropNothing(i);
        DropNothing(i - 1);
        if Held(q, i - 1, j) {
          var r' := HeldNear(q, i - 1, j);
          assert false;
        }
      }
    }
  }

  // ---------- one centre ----------

  lemma CornerFine(n: nat, step: nat)
    requires step <= 26
    ensures Corner(Lift(n, 26 - step), WGS84_LAT, 26) == Corner(n, WGS84_LAT, step)
  {
    CornerFiner(n, WGS84_LAT, step, 26 - step);
  }

  /** The centre lies south of the rows from FirstNorth on and north of those up to FirstSouth. */
  lemma CentreBetween(q: Query, i: nat)
    requires q.ct.WGS84? && q.ct.InWorld(q.latitude, q.longitude)
    ensures var c, k := CentreRow(q), 26 - StepFor(q.radius);
      && (i >= Lift(c + 2, k) ==> q.latitude + Side(WGS84_LAT, 26) <= Corner(i, WGS84_LAT, 26))
      && (c >= 1 && i < Lift(c - 1, k) ==> Corner(i, WGS84_LAT, 26) < q.latitude)
  {
    hide Corner, Side, Index, Lift;
    var c, s := CentreRow(q), StepFor(q.radius);
    IndexIsCell(q.latitude, WGS84_LAT, s, c);
    CornerStep(c, WGS84_LAT, s);
    CornerStep(c + 1, WGS84_LAT, s);
    CornerFine(c + 2, s);
    SideMono(s, 26);
    if i >= Lift(c + 2, 26 - s) {
      CornerMono(Lift(c + 2, 26 - s), i, WGS84_LAT, 26);
    }
    if c >= 1 && i < Lift(c - 1, 26 - s) {
      CornerFine(c - 1, s);
      CornerStep(c - 1, WGS84_LAT, s);
      CornerMono(i, Lift(c - 1, 26 - s), WGS84_LAT, 26);
    }
  }

  lemma {:induction false} SideMono(a: nat, b: nat)
    requires a <= b
    ensures 0.0 < Side(WGS84_LAT, b) <= Side(WGS84_LAT, a)
    decreases b
  {
    CornerStep(0, WGS84_LAT, b);
    if a < b {
      SideMono(a, b - 1);
      HalfQuotient(WGS84_LAT.Width(), Pow2R(b - 1));
    }
  }

  /** Where neither first row is in reach, every member that passes the test is in a scanned interval. */
  lemma KeptScanned(q: Query, j: nat, e: Entry)
    requires OnColumn(q, j) && q.radius >= 0.0 && Meridional(q.ct.trig)
    requires OnMeridian(q, [e]) && Keeps(q, PointOf(q.ct, e))
    requires !InReach(q, FirstNorth(q, j)) && !InReach(q, FirstSouth(q, j))
    ensures Scanned(Boxes(q.Areas()), e)
  {
    hide Areas, Boxes, Keeps, PointOf, Scanned, FirstNorth, FirstSouth, Corner, Lift, Drop, Cell, StepFor, LatHalfHeight,
         ScoreLatitude, MortonCode, Pow2;
    var i := MemberRow(q, j, e);
    var c, s := CentreRow(q), StepFor(q.radius);
    KeptNear(q, e);
    RowOfCorner(i, s);
    assert InReach(q, i);
    hide InReach;
    if c + 2 <= Drop(i, 26 - s) {
      DropIsBlock(i, 26 - s, Drop(i, 26 - s));
      LiftUpTo(c + 2, Drop(i, 26 - s), 26 - s);
      KeptNorth(q, j, e, i);
    } else if Drop(i, 26 - s) + 2 <= c {
      DropIsBlock(i, 26 - s, Drop(i, 26 - s));
      LiftUpTo(Drop(i, 26 - s) + 1, c - 1, 26 - s);
      KeptSouth(q, j, e, i);
    } else {
      KeptClose(q, e);
    }
  }

  lemma LiftUpTo(a: nat, b: nat, k: nat)
    requires a <= b
    ensures Lift(a, k) <= Lift(b, k)
  {
    if a < b {
      LiftMono(a, b, k);
    }
  }

  /** The fine row of a member of the meridian. */
  lemma MemberRow(q: Query, j: nat, e: Entry) returns (i: nat)
    requires OnColumn(q, j) && OnMeridian(q, [e])
    ensures i < Pow2(26) && e.score == MortonCode(i, j) && ScoreLatitude(q.ct, e.score) == Corner(i, WGS84_LAT, 26)
  {
    assert e in [e];
    i := EvenDigits(e.score);
    ScoreRowCol(e.score);
    IndexOfCorner(j, WGS84_LON, 26);
    IndexOfCorner(OddDigits(e.score), WGS84_LON, 26);
  }

  lemma RowOfCorner(i: nat, s: nat)
    requires i < Pow2(26) && s <= 26
    ensures WGS84_LAT.Inside(Corner(i, WGS84_LAT, 26))
    ensures Cell(Corner(i, WGS84_LAT, 26), WGS84_LAT, s) == Drop(i, 26 - s)
  {
    CornerCell(i, WGS84_LAT, s);
  }

  lemma HeldIsScanned(q: Query, i: nat, j: nat, e: Entry)
    requires q.OnMap() && e.score == MortonCode(i, j)
    ensures Held(q, i, j) <==> Scanned(Boxes(q.Areas()), e)
  {
    ScannedExactly(q, e);
  }

  lemma KeptNorth(q: Query, j: nat, e: Entry, i: nat)
    requires OnColumn(q, j) && e.score == MortonCode(i, j) && InReach(q, i)
    requires i >= Lift(CentreRow(q) + 2, 26 - StepFor(q.radius)) && !InReach(q, FirstNorth(q, j))
    ensures Scanned(Boxes(q.Areas()), e)
  {
    hide InReach, Held, Scanned, Lift, CentreRow, StepFor, Boxes, Areas, MortonCode;
    var f := FirstNorth(q, j);
    HeldIsScanned(q, i, j, e);
    if f <= i {
      NorthCloser(q, f, i);
    }
  }

  lemma NorthCloser(q: Query, f: nat, i: nat)
    requires q.ct.WGS84? && q.ct.InWorld(q.latitude, q.longitude)
    requires Lift(CentreRow(q) + 2, 26 - StepFor(q.radius)) <= f <= i && InReach(q, i)
    ensures InReach(q, f)
  {
    hide Corner, Side, Lift, CentreRow, StepFor, LatHalfHeight, Pow2;
    CentreBetween(q, f);
    CornerMono(f, i, WGS84_LAT, 26);
    CornerStep(0, WGS84_LAT, 26);
  }

  lemma KeptSouth(q: Query, j: nat, e: Entry, i: nat)
    requires OnColumn(q, j) && e.score == MortonCode(i, j) && InReach(q, i)
    requires CentreRow(q) >= 2 && i < Lift(CentreRow(q) - 1, 26 - StepFor(q.radius)) && !InReach(q, FirstSouth(q, j))
    ensures Scanned(Boxes(q.Areas()), e)
  {
    hide InReach, Held, Scanned, Lift, CentreRow, StepFor, Boxes, Areas, MortonCode, Pow2, Corner, Index;
    var f := FirstSouth(q, j);
    HeldIsScanned(q, i, j, e);
    if i <= f {
      SouthOnMap(q, j);
      SouthCloser(q, f, i);
    }
  }

  lemma SouthCloser(q: Query, f: nat, i: nat)
    requires q.ct.WGS84? && q.ct.InWorld(q.latitude, q.longitude)
    requires CentreRow(q) >= 1 && i <= f < Lift(CentreRow(q) - 1, 26 - StepFor(q.radius)) && f < Pow2(26) && InReach(q, i)
    ensures InReach(q, f)
  {
    hide Corner, Side, Lift, CentreRow, StepFor, LatHalfHeight, Pow2;
    CentreBetween(q, f);
    CornerMono(i, f, WGS84_LAT, 26);
  }

  lemma SouthOnMap(q: Query, j: nat)
    requires q.ct.WGS84? && q.ct.InWorld(q.latitude, q.longitude)
    ensures FirstSouth(q, j) < Pow2(26)
    ensures FirstSouth(q, j) >= 0 ==> CentreRow(q) >= 2 && FirstSouth(q, j) < Lift(CentreRow(q) - 1, 26 - StepFor(q.radius))
  {
    hide Held, Index, Lift, Pow2, StepFor;
    var c, s := CentreRow(q), StepFor(q.radius);
    IndexBounds(q.latitude, WGS84_LAT, s);
    if c >= 2 {
      LiftBound(c - 1, s, 26 - s);
    }
  }

  /** A member in the centre's row or the next one is found. */
  lemma KeptClose(q: Query, e: Entry)
    requires q.ct.WGS84? && q.ct.InWorld(q.latitude, q.longitude) && q.radius >= 0.0 && Meridional(q.ct.trig)
    requires OnMeridian(q, [e]) && WGS84_LAT.Inside(ScoreLatitude(q.ct, e.score))
    requires Abs(q.latitude - ScoreLatitude(q.ct, e.score)) <= LatHalfHeight(q.radius)
    requires CentreRow(q) - 1 <= Cell(ScoreLatitude(q.ct, e.score), WGS84_LAT, StepFor(q.radius)) <= CentreRow(q) + 1
    ensures Scanned(Boxes(q.Areas()), e)
  {
    hide Areas, Boxes, Scanned, ScoreLatitude, ScoreLongitude, Index, LatHalfHeight, StepFor;
    var s, d := StepFor(q.radius), LatHalfHeight(q.radius);
    var p := ScoreLatitude(q.ct, e.score);
    assert e in [e];
    ScoreCells(q.ct, e.score, 1);
    Wgs84Rows(q.ct.trig, q.latitude, q.longitude, q.radius);
    AxisNear(q.latitude, p, WGS84_LAT, s, q.latitude - d, q.latitude + d);
    FindsIsProduct(q.ct, q.latitude, q.longitude, q.radius, p, q.longitude);
    IndexedIsScanned(q, e);
  }

  /** A fine row in reach that no scanned interval holds: with a member there and one at the centre's
      own position stored, the search gets through and misses the first. */
  lemma RowMissed(q: Query, j: nat, i: nat)
    requires OnColumn(q, j) && q.radius >= 0.0 && Meridional(q.ct.trig)
    requires InReach(q, i) && !Held(q, i, j) && Beyond(q, i)
    ensures !MeridianComplete(q)
  {
    hide Areas, Boxes, Keeps, PointOf, Scanned, Held, Corner, Cell, Search, NaiveSearch, RunDefined, OwnScore, StepFor;
    var e := Entry(q.centre + "'", MortonCode(i, j));
    var n := Entry(q.centre + "''", OwnScore(q));
    CellScore(q.ct, i, j);
    RowOfCorner(i, 26);
    ArcKept(q, e);
    HeldIsScanned(q, i, j, e);
    OwnOnColumn(q, j, i);
    ArcKept(q, n);
    OwnScanned(q, n.member);
    MissedMember(q, n, e);
    assert OnMeridian(q, Couple(n, e));
  }

  /** The centre's own position is closer than a row south of it or at least a fine row north of it. */
  predicate Beyond(q: Query, i: nat)
    requires q.ct.WGS84? && q.ct.InWorld(q.latitude, q.longitude)
  {
    i < Cell(q.latitude, WGS84_LAT, 26) || q.latitude + Side(WGS84_LAT, 26) <= Corner(i, WGS84_LAT, 26)
  }

  lemma OwnOnColumn(q: Query, j: nat, i: nat)
    requires OnColumn(q, j) && InReach(q, i) && Beyond(q, i)
    ensures IsScore(OwnScore(q)) && ScoreLongitude(q.ct, OwnScore(q)) == q.longitude
    ensures WGS84_LAT.Inside(ScoreLatitude(q.ct, OwnScore(q)))
    ensures Abs(q.latitude - ScoreLatitude(q.ct, OwnScore(q))) <= LatHalfHeight(q.radius)
  {
    hide Corner, Side, Index, OwnScore, ScoreLatitude, ScoreLongitude, LatHalfHeight;
    var c := Cell(q.latitude, WGS84_LAT, 26);
    OwnPosition(q);
    OwnCell(q.latitude, WGS84_LAT, 26);
    IndexOfCorner(j, WGS84_LON, 26);
    NearEdges(q.latitude, WGS84_LAT);
    if i < c {
      CornerMono(i, c, WGS84_LAT, 26);
    }
  }

  /** For every centre on a meridian with members: the runs of the search that get through find exactly
      the members within the radius if and only if neither the first fine row north of the scanned rows
      nor the first one south of them is within the radius. */
  lemma MeridianSearchExactly(q: Query, j: nat)
    requires OnColumn(q, j) && q.radius >= 0.0 && Meridional(q.ct.trig)
    ensures MeridianComplete(q) <==> !InReach(q, FirstNorth(q, j)) && !InReach(q, FirstSouth(q, j))
  {
    hide FirstNorth, FirstSouth, InReach, Search, NaiveSearch, RunDefined, Meridional;
    if InReach(q, FirstNorth(q, j)) {
      NorthMissed(q, j);
    } else if InReach(q, FirstSouth(q, j)) {
      SouthMissed(q, j);
    } else {
      forall db, limit: nat | SortedSet(db) && OnMeridian(q, db) && limit >= |db| && RunDefined(q, db, limit)
        ensures SameFound(Search(q, db, limit), NaiveSearch(q, db))
      {
        MeridianRefines(q, j, db, limit);
      }
    }
  }

  lemma NorthMissed(q: Query, j: nat)
    requires OnColumn(q, j) && q.radius >= 0.0 && Meridional(q.ct.trig)
    requires InReach(q, FirstNorth(q, j))
    ensures !MeridianComplete(q)
  {
    hide Held, Meridional, MeridianComplete, Corner, Side, Cell, Lift, StepFor, CentreRow, LatHalfHeight, Abs, Pow2;
    NorthNotHeld(q, j);
    CentreBetween(q, FirstNorth(q, j));
    RowMissed(q, j, FirstNorth(q, j));
  }

  lemma SouthMissed(q: Query, j: nat)
    requires OnColumn(q, j) && q.radius >= 0.0 && Meridional(q.ct.trig)
    requires InReach(q, FirstSouth(q, j))
    ensures !MeridianComplete(q)
  {
    hide Held, Meridional, MeridianComplete, FirstSouth;
    SouthNotHeld(q, j);
    SouthOnMap(q, j);
    SouthBeyond(q, FirstSouth(q, j));
    RowMissed(q, j, FirstSouth(q, j));
  }

  lemma SouthBeyond(q: Query, i: nat)
    requires q.ct.WGS84? && q.ct.InWorld(q.latitude, q.longitude)
    requires CentreRow(q) >= 2 && i < Lift(CentreRow(q) - 1, 26 - StepFor(q.radius))
    ensures i < Cell(q.latitude, WGS84_LAT, 26)
  {
    hide Index, Lift, Drop;
    var c, s := CentreRow(q), StepFor(q.radius);
    CellShift(q.latitude, WGS84_LAT, s, 26 - s);
    DropIsBlock(Cell(q.latitude, WGS84_LAT, 26), 26 - s, c);
    LiftMono(c - 1, c, 26 - s);
  }

  lemma MeridianRefines(q: Query, j: nat, db: Zset, limit: nat)
    requires OnColumn(q, j) && q.radius >= 0.0 && Meridional(q.ct.trig)
    requires OnMeridian(q, db) && limit >= |db|
    requires !InReach(q, FirstNorth(q, j)) && !InReach(q, FirstSouth(q, j))
    ensures SameFound(Search(q, db, limit), NaiveSearch(q, db))
  {
    hide FirstNorth, FirstSouth, InReach, Search, NaiveSearch, Keeps, PointOf, Scanned, Areas, Boxes;
    forall e | e in db && Keeps(q, PointOf(q.ct, e))
      ensures Scanned(Boxes(q.Areas()), e)
    {
      KeptScanned(q, j, e);
    }
    ScannedRefinesNaive(q, db, limit);
  }
}
