// A member whose score is the extra score of one scanned interval and in the next one as well is
// listed twice, and so a limited search returns fewer members than it should.
module ListedTwice {
  import opened Arith
  import opened Morton
  import opened Geohash
  import opened GeoRadius
  import opened Coverage
  import opened GeoIndex
  import opened CStrings
  import opened GeoSearch
  import opened GeoMembers
  import opened SearchLimits
  import opened MeridianSearch
  import opened MeridianRadii
  import opened Ranking
  import opened HitCount
  import opened NearestMembers

  // ---------- two boxes ----------

  lemma {:induction false} TwoTimes(hs: seq<Hash>, e: Entry, i: nat, j: nat)
    requires i < j < |hs| && HasScore(hs[i], e) && HasScore(hs[j], e)
    ensures Times(hs, e) >= 2
  {
    if j == |hs| - 1 {
      OneTime(hs[..j], e, i);
    } else {
      TwoTimes(hs[..|hs| - 1], e, i, j);
    }
  }

  lemma {:induction false} OneTime(hs: seq<Hash>, e: Entry, i: nat)
    requires i < |hs| && HasScore(hs[i], e)
    ensures Times(hs, e) >= 1
  {
    if i < |hs| - 1 {
      OneTime(hs[..|hs| - 1], e, i);
    }
  }

  /** The rows and columns of a query's centre, and of the cell to the north. */
  ghost predicate NorthKept(q: Query, row: nat, col: nat) {
    && q.ct.InWorld(q.latitude, q.longitude)
    && row == Cell(q.latitude, q.ct.LatRange(), StepFor(q.radius)) && row + 1 < Pow2(StepFor(q.radius))
    && col == Cell(q.longitude, q.ct.LonRange(), StepFor(q.radius))
    && Corner(row + 1, q.ct.LatRange(), StepFor(q.radius)) <= q.Box().maxLat
  }

  lemma NorthNotPruned(q: Query, row: nat, col: nat)
    requires NorthKept(q, row, col)
    ensures var h := CentreHash(q.ct, q.latitude, q.longitude, StepFor(q.radius));
      && Row(h.bits) == row && Col(h.bits) == col
      && q.Areas().hash == h && q.Areas().neighbors.north == Shifted(h, 0, 1)
  {
    hide Corner, Index, Shifted, StepFor, Next32, BoundingBox;
    NextCorner(q.latitude, q.ct.LatRange(), StepFor(q.radius));
  }

  /** The first two boxes are the centre's cell and, where the box reaches it, the one to the north. */
  lemma FirstBoxes(q: Query, row: nat, col: nat)
    requires NorthKept(q, row, col)
    ensures Names(Boxes(q.Areas())[0], row, col) && Names(Boxes(q.Areas())[1], row + 1, col)
  {
    hide Corner, Cell, Shifted, StepFor, Row, Col, Areas, Pow2, CentreHash;
    var s := StepFor(q.radius);
    NorthNotPruned(q, row, col);
    ShiftNames(CentreHash(q.ct, q.latitude, q.longitude, s), 0, 1, row + 1, col);
    AroundCases(row, 1, s);
  }

  /** The score of the minimum corner of the cell to the north. */
  function NorthScore(q: Query, row: nat, col: nat): nat {
    Lift(MortonCode(row + 1, col), 52 - 2 * StepFor(q.radius))
  }

  /** From an even row, the corner of the cell to the north is listed twice. */
  lemma NorthCornerTwice(q: Query, row: nat, col: nat, e: Entry)
    requires NorthKept(q, row, col) && row % 2 == 0 && e.score == NorthScore(q, row, col)
    ensures Times(Boxes(q.Areas()), e) >= 2
  {
    hide NorthKept, Areas, Boxes, Names, MortonCode, Lift, HasScore;
    var hs, k := Boxes(q.Areas()), 52 - 2 * StepFor(q.radius);
    FirstBoxes(q, row, col);
    NextOfEven(row, col);
    LiftMono(MortonCode(row, col), MortonCode(row, col) + 1, k);
    LiftMono(MortonCode(row + 1, col), MortonCode(row + 1, col) + 1, k);
    NamedHas(q, hs[0], row, col, e);
    NamedHas(q, hs[1], row + 1, col, e);
    TwoTimes(hs, e, 0, 1);
  }

  lemma NextOfEven(row: nat, col: nat)
    requires row % 2 == 0
    ensures MortonCode(row + 1, col) == MortonCode(row, col) + 1
  {
    hide MortonCode;
    MortonDigits(row, col);
    MortonDigits(row + 1, col);
  }

  // ---------- a store ----------

  lemma {:induction false} LiftCode(i: nat, j: nat, k: nat)
    ensures MortonCode(Lift(i, k), Lift(j, k)) == Lift(MortonCode(i, j), 2 * k)
  {
    hide MortonCode;
    if k > 0 {
      LiftCode(i, j, k - 1);
      JoinDigits(0, 0, Lift(i, k - 1), Lift(j, k - 1));
      LiftTwice(MortonCode(i, j), 2 * k - 2);
    }
  }

  lemma LiftTwice(n: nat, k: nat)
    ensures Lift(n, k + 2) == 4 * Lift(n, k)
  {
    assert Lift(n, k + 1) == 2 * Lift(n, k);
  }

  /** A member at the corner of the northern cell, and one a fine row further north. */
  function NorthMembers(q: Query, row: nat, col: nat): Zset {
    [Entry("a", NorthScore(q, row, col)), Entry("b", NorthScore(q, row, col) + 1)]
  }

  /** The fine cells of the two. */
  lemma NorthFine(q: Query, row: nat, col: nat)
    requires StepFor(q.radius) < 26
    ensures var i, j := Lift(row + 1, 26 - StepFor(q.radius)), Lift(col, 26 - StepFor(q.radius));
      NorthScore(q, row, col) == MortonCode(i, j) && NorthScore(q, row, col) + 1 == MortonCode(i + 1, j)
  {
    hide MortonCode, Lift;
    var k := 26 - StepFor(q.radius);
    LiftCode(row + 1, col, k);
    LiftRoom(row + 1, k);
    NextOfEven(Lift(row + 1, k), Lift(col, k));
  }

  /** Both are in scanned intervals. */
  lemma NorthScanned(q: Query, row: nat, col: nat)
    requires NorthKept(q, row, col) && StepFor(q.radius) < 26
    ensures forall e | e in NorthMembers(q, row, col) :: Scanned(Boxes(q.Areas()), e)
  {
    hide NorthKept, Areas, Boxes, Names, MortonCode, Lift, HasScore;
    FirstBoxes(q, row, col);
    var h := Boxes(q.Areas())[1];
    LiftMono(MortonCode(row + 1, col), MortonCode(row + 1, col) + 1, 52 - 2 * StepFor(q.radius));
    forall e | e in NorthMembers(q, row, col)
      ensures Scanned(Boxes(q.Areas()), e)
    {
      NamedHas(q, h, row + 1, col, e);
    }
  }

  /** A run in which every member is wanted and scanned gets through and finds them all. */
  lemma AllFound(q: Query, db: Zset)
    requires db != [] && forall e | e in db :: Wanted(q, e) && Scanned(Boxes(q.Areas()), e)
    ensures RunDefined(q, db, |db|) && SameFound(Search(q, db, |db|), NaiveSearch(q, db))
  {
    hide Areas, Boxes, Wanted, Scanned, ScanAll, PointOf, Keeps, SameFound, Search, NaiveSearch;
    QueryScannable(q);
    ScannedRefinesNaive(q, db, |db|);
    var ps := QueryPoints(q, db, |db|);
    assert db[0] in db;
    ScanAllHas(q.ct, db, Boxes(q.Areas()), |db|, PointOf(q.ct, db[0]));
    forall o | o in ps
      ensures Keeps(q, o)
    {
      ScanAllHas(q.ct, db, Boxes(q.Areas()), |db|, o);
      var e :| e in db && o == PointOf(q.ct, e);
      WantedKept(q, e);
    }
    assert ps[0] in ps && ps[|ps| - 1] in ps;
  }

  /** The naive search on two wanted members, the first nearer: both, already in order. */
  lemma TwoRanked(q: Query, a: Entry, b: Entry)
    requires Wanted(q, a) && Wanted(q, b) && FoundOf(q, a).dist < FoundOf(q, b).dist
    ensures NaiveSearch(q, [a, b]) == Ranked(q, [a, b]) == [FoundOf(q, a), FoundOf(q, b)]
  {
    hide Wanted, Keeps, Measured, PointOf, FoundOf;
    WantedKept(q, a);
    WantedKept(q, b);
    var ps := PointsOf(q.ct, [a, b]);
    assert ps == [PointOf(q.ct, a), PointOf(q.ct, b)];
    assert ps[..1] == [PointOf(q.ct, a)] && ps[..1][..0] == [];
    assert Filtered(q, ps[..1]) == [FoundOf(q, a)];
    var s := [FoundOf(q, a), FoundOf(q, b)];
    assert s[1..] == [FoundOf(q, b)] && s[1..][1..] == [];
    assert Sort(s[1..]) == [FoundOf(q, b)];
  }

  /** Two places are due to two members; the nearer takes both. */
  lemma OneHit(q: Query, a: Entry, b: Entry)
    requires DistinctNames([a, b]) && SameFound(Search(q, [a, b], 2), NaiveSearch(q, [a, b]))
    requires Wanted(q, a) && Wanted(q, b) && FoundOf(q, a).dist < FoundOf(q, b).dist
    requires Times(Boxes(q.Areas()), a) >= 2
    ensures |NaiveSearch(q, [a, b])| == 2 && Hits(q, [a, b], 2) == 1
  {
    hide Wanted, FoundOf, Areas, Boxes, Search, NaiveSearch, Ranked, Reached, Listings;
    var db := [a, b];
    TwoRanked(q, a, b);
    HitsExactly(q, db, 2);
    assert Ranked(q, db)[..1] == [FoundOf(q, a)];
    assert [FoundOf(q, a)][..0] == [];
    NamesDistinct(db);
    assert a in db;
    ListingsTimes(q, db, a);
  }

  // ---------- 4 km around the origin ----------

  function Origin(trig: Trig): Query { Query(WGS84(trig), "", 0.0, 0.0, 4000.0) }

  lemma OriginCells(trig: Trig)
    requires Meridional(trig)
    ensures StepFor(Origin(trig).radius) == 13 && NorthKept(Origin(trig), Pow2(12), Pow2(12)) && Pow2(12) % 2 == 0
    ensures Corner(Pow2(12) + 1, WGS84_LAT, 13) == Side(WGS84_LAT, 13)
  {
    hide Corner, Side, Cell, LatHalfHeight, StepFor, Pow2, Wgs84Box;
    var q := Origin(trig);
    FourKilometres();
    MiddleCell(WGS84_LAT, 12);
    MiddleCell(WGS84_LON, 12);
    CornerStep(Pow2(12), WGS84_LAT, 13);
    Wgs84Rows(trig, 0.0, 0.0, 4000.0);
    NorthLatitudes();
    Pow2Quarter(10);
    Pow2Double(12);
    Pow2Exceeds(12);
  }

  lemma OriginPositions(trig: Trig, e: Entry)
    requires Meridional(trig) && e in NorthMembers(Origin(trig), Pow2(12), Pow2(12))
    ensures IsScore(e.score) && ScoreLongitude(WGS84(trig), e.score) == 0.0
    ensures ScoreLatitude(WGS84(trig), e.score)
         == Side(WGS84_LAT, 13) + if e.member == "a" then 0.0 else Side(WGS84_LAT, 26)
  {
    hide Corner, Side, Index, Lift, Pow2, StepFor, MortonCode, ScoreLatitude, ScoreLongitude;
    OriginCells(trig);
    var i, j := Lift(Pow2(12) + 1, 13), Lift(Pow2(12), 13);
    NorthFine(Origin(trig), Pow2(12), Pow2(12));
    MiddleCell(WGS84_LON, 12);
    CornerFiner(Pow2(12) + 1, WGS84_LAT, 13, 13);
    CornerFiner(Pow2(12), WGS84_LON, 13, 13);
    CornerStep(i, WGS84_LAT, 26);
    FineOnMap();
    CellScore(WGS84(trig), i, j);
    CellScore(WGS84(trig), i + 1, j);
  }

  lemma FineOnMap()
    ensures Lift(Pow2(12) + 1, 13) + 1 < Pow2(26) && Lift(Pow2(12), 13) < Pow2(26)
  {
    hide Lift, Pow2;
    Pow2Double(12);
    Pow2Exceeds(12);
    LiftUpTo(Pow2(12) + 2, Pow2(13), 13);
    LiftRoom(Pow2(12) + 1, 13);
    LiftRoom(Pow2(12), 13);
    MapRows(13);
  }

  lemma Pow2Double(n: nat)
    ensures Pow2(n + 1) == 2 * Pow2(n)
  {
  }

  /** Both are within 4 km, the first nearer. */
  lemma OriginWanted(trig: Trig)
    requires Meridional(trig)
    ensures var q := Origin(trig);
      var db := NorthMembers(q, Pow2(12), Pow2(12));
      Wanted(q, db[0]) && Wanted(q, db[1]) && FoundOf(q, db[0]).dist < FoundOf(q, db[1]).dist
  {
    hide Side, Pow2, NorthScore, ScoreLatitude, ScoreLongitude, LatHalfHeight, StepFor;
    var q := Origin(trig);
    var db := NorthMembers(q, Pow2(12), Pow2(12));
    OriginPositions(trig, db[0]);
    OriginPositions(trig, db[1]);
    NorthLatitudes();
    ArcWithin(Side(WGS84_LAT, 13), 4000.0);
    ArcWithin(Side(WGS84_LAT, 13) + Side(WGS84_LAT, 26), 4000.0);
    assert WGS84_LAT.Inside(0.0);
    LongerArc(Side(WGS84_LAT, 13), Side(WGS84_LAT, 13) + Side(WGS84_LAT, 26));
  }

  lemma NorthLatitudes()
    ensures 0.0 < Side(WGS84_LAT, 13) < Side(WGS84_LAT, 13) + Side(WGS84_LAT, 26) <= LatHalfHeight(4000.0)
    ensures WGS84_LAT.Inside(Side(WGS84_LAT, 13)) && WGS84_LAT.Inside(Side(WGS84_LAT, 13) + Side(WGS84_LAT, 26))
  {
    hide Side;
    FourKilometresTall();
    CornerStep(0, WGS84_LAT, 13);
    CornerStep(0, WGS84_LAT, 26);
  }

  lemma LongerArc(x: real, y: real)
    requires x < y
    ensures x * D_R * EARTH_RADIUS_IN_METERS < y * D_R * EARTH_RADIUS_IN_METERS
  {
  }

  /** Two members within 4 km of the origin are stored. A search limited to two of them gets through and
      is complete, but returns one. */
  lemma FewerHits(trig: Trig) returns (store: Store, q: Query)
    requires Meridional(trig)
    ensures q == Query(WGS84(trig), "", 0.0, 0.0, 4000.0)
    ensures var db := DbOf(store, "key");
      && Storable(db) && SortedSet(db) && DistinctNames(db) && RunDefined(q, db, 2)
      && SameFound(Search(q, db, 2), NaiveSearch(q, db)) && |NaiveSearch(q, db)| == 2
      && forall result | TopOf(result, Search(q, db, 2), 2) :: |result| == 1
  {
    hide Search, NaiveSearch, TopOf, Wanted, FoundOf, NorthScore, NorthKept, Areas, Boxes, Times, Hits, Scanned,
         RunDefined, Pow2, SameFound, ScoreLatitude, ScoreLongitude;
    q := Origin(trig);
    var db := NorthMembers(q, Pow2(12), Pow2(12));
    store := map["key" := db];
    OriginCells(trig);
    OriginWanted(trig);
    NorthScanned(q, Pow2(12), Pow2(12));
    AllFound(q, db);
    NorthCornerTwice(q, Pow2(12), Pow2(12), db[0]);
    NorthNames(q);
    OneHit(q, db[0], db[1]);
    OriginPositions(trig, db[0]);
    OriginPositions(trig, db[1]);
    Pow2Mono(52, 63);
    forall result | TopOf(result, Search(q, db, 2), 2)
      ensures |result| == 1
    {
      EntriesReturned(q, db, 2, result, 2);
    }
  }

  lemma NorthNames(q: Query)
    ensures var db := NorthMembers(q, Pow2(12), Pow2(12));
      DistinctNames(db) && SortedSet(db)
  {
    hide Pow2, NorthScore;
    assert CStr("a") == "a" && CStr("b") == "b";
  }
}
