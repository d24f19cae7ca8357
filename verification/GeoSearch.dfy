// The radius search of ssdb_geo.c as a function of the stored scores: the nine score intervals,
// the distance filter, and its agreement with testing every member.
module GeoSearch {
  import opened Arith
  import opened Words
  import opened Morton
  import opened Geohash
  import opened GeoRadius
  import opened Coverage
  import opened GeoIndex
  import opened CStrings

  /** One element of the sorted set a search runs on. */
  datatype Entry = Entry(member: string, score: nat)

  type Zset = seq<Entry>

  /** SSDBGeoPoint. */
  datatype GeoPoint = GeoPoint(member: string, latitude: real, longitude: real, dist: real)

  /** What a search asks: everything but the member `centre` within the radius of a position. */
  datatype Query = Query(ct: CoordType, centre: string, latitude: real, longitude: real, radius: real) {
    predicate OnMap() { ct.OnMap(latitude, longitude) }

    function Areas(): GeoHashRadius { GeoRadius.Areas(ct, latitude, longitude, radius) }

    function Box(): Box { BoundingBox(ct, latitude, longitude, radius) }
  }

  // ---------- the distance test ----------

  /** geohashGetDistanceIfInRadius: the distance it writes ... */
  function Distance(q: Query, latitude: real, longitude: real): real {
    match q.ct
    case WGS84(trig) => trig.haversine(q.latitude, q.longitude, latitude, longitude)
    case Mercator => SquaredDistance(q.longitude, q.latitude, longitude, latitude)
  }

  /** ... and the answer it returns. */
  predicate InRadius(q: Query, latitude: real, longitude: real) {
    Distance(q, latitude, longitude) <= if q.ct.WGS84? then q.radius else q.radius * q.radius
  }

  predicate IsCentre(q: Query, member: string) {
    |q.centre| == |member| && StrNEq(q.centre, member, |member|)
  }

  predicate Keeps(q: Query, p: GeoPoint) {
    !IsCentre(q, p.member) && InRadius(q, p.latitude, p.longitude)
  }

  function Measured(q: Query, p: GeoPoint): GeoPoint {
    p.(dist := Distance(q, p.latitude, p.longitude))
  }

  /** The kept points in order, with their distances. */
  function Filtered(q: Query, ps: seq<GeoPoint>): seq<GeoPoint> {
    if ps == [] then [] else
      var p := ps[|ps| - 1];
      Filtered(q, ps[..|ps| - 1]) + (if Keeps(q, p) then [Measured(q, p)] else [])
  }

  // ---------- scanning ----------

  predicate InInterval(e: Entry, lo: nat, hi: nat) { lo <= e.score <= hi }

  function InRange(db: Zset, lo: nat, hi: nat): Zset {
    if db == [] then [] else
      InRange(db[..|db| - 1], lo, hi) + (if InInterval(db[|db| - 1], lo, hi) then [db[|db| - 1]] else [])
  }

  /** The server's zscan: the first `limit` elements with a score in the inclusive interval. */
  function Zscan(db: Zset, lo: nat, hi: nat, limit: nat): Zset {
    var r := InRange(db, lo, hi);
    if |r| <= limit then r else r[..limit]
  }

  function PointOf(ct: CoordType, e: Entry): GeoPoint {
    GeoPoint(e.member, ScoreLatitude(ct, e.score), ScoreLongitude(ct, e.score), 0.0)
  }

  function PointsOf(ct: CoordType, es: seq<Entry>): (ps: seq<GeoPoint>)
    ensures |ps| == |es| && forall i | 0 <= i < |es| :: ps[i] == PointOf(ct, es[i])
  {
    seq(|es|, i requires 0 <= i < |es| => PointOf(ct, es[i]))
  }

  /** A hash a search may scan: zeroed, or a cell. */
  predicate Scannable(h: Hash) { HashIsZero(h) || CellSized(h) }

  /** ssdb_geo_member_box. */
  function ScanBox(ct: CoordType, db: Zset, h: Hash, limit: nat): seq<GeoPoint>
    requires Scannable(h)
  {
    if HashIsZero(h) then [] else PointsOf(ct, Zscan(db, LowScore(h), HighScore(h), limit))
  }

  /** The boxes one after the other, joined. */
  function ScanAll(ct: CoordType, db: Zset, hs: seq<Hash>, limit: nat): seq<GeoPoint>
    requires forall h | h in hs :: Scannable(h)
  {
    if hs == [] then [] else
      ScanAll(ct, db, hs[..|hs| - 1], limit) + ScanBox(ct, db, hs[|hs| - 1], limit)
  }

  // ---------- membership ----------

  lemma {:induction false} FilteredHas(q: Query, ps: seq<GeoPoint>, p: GeoPoint)
    ensures p in Filtered(q, ps) <==> exists o :: o in ps && Keeps(q, o) && p == Measured(q, o)
  {
    if ps != [] {
      var init, last := ps[..|ps| - 1], ps[|ps| - 1];
      assert ps == init + [last];
      FilteredHas(q, init, p);
    }
  }

  lemma {:induction false} InRangeHas(db: Zset, lo: nat, hi: nat, e: Entry)
    ensures e in InRange(db, lo, hi) <==> e in db && InInterval(e, lo, hi)
    ensures |InRange(db, lo, hi)| <= |db|
  {
    if db != [] {
      var init, last := db[..|db| - 1], db[|db| - 1];
      assert db == init + [last];
      InRangeHas(init, lo, hi, e);
    }
  }

  lemma PointsHas(ct: CoordType, es: seq<Entry>, p: GeoPoint)
    ensures p in PointsOf(ct, es) <==> exists e :: e in es && p == PointOf(ct, e)
  {
    if p in PointsOf(ct, es) {
      var i :| 0 <= i < |es| && PointsOf(ct, es)[i] == p;
      assert es[i] in es;
    }
    if exists e :: e in es && p == PointOf(ct, e) {
      var e :| e in es && p == PointOf(ct, e);
      var i :| 0 <= i < |es| && es[i] == e;
      assert PointsOf(ct, es)[i] == p;
    }
  }

  /** The element's score lies in the interval of a scanned box. */
  ghost predicate Scanned(hs: seq<Hash>, e: Entry)
  {
    exists h :: h in hs && HasScore(h, e)
  }

  predicate HasScore(h: Hash, e: Entry) {
    !HashIsZero(h) && CellSized(h) && InInterval(e, LowScore(h), HighScore(h))
  }

  lemma ScanBoxHas(ct: CoordType, db: Zset, h: Hash, limit: nat, p: GeoPoint)
    requires Scannable(h) && !HashIsZero(h) && limit >= |db|
    ensures p in ScanBox(ct, db, h, limit) <==>
      exists e :: e in db && InInterval(e, LowScore(h), HighScore(h)) && p == PointOf(ct, e)
  {
    var es := InRange(db, LowScore(h), HighScore(h));
    forall e
      ensures e in es <==> e in db && InInterval(e, LowScore(h), HighScore(h))
      ensures |es| <= |db|
    {
      InRangeHas(db, LowScore(h), HighScore(h), e);
    }
    PointsHas(ct, es, p);
  }

  /** With no limit in the way, the joined list holds exactly the points of the scanned elements. */
  lemma {:induction false} ScanAllHas(ct: CoordType, db: Zset, hs: seq<Hash>, limit: nat, p: GeoPoint)
    requires (forall h | h in hs :: Scannable(h)) && limit >= |db|
    ensures p in ScanAll(ct, db, hs, limit) <==> exists e :: e in db && Scanned(hs, e) && p == PointOf(ct, e)
  {
    if hs != [] {
      var init, last := hs[..|hs| - 1], hs[|hs| - 1];
      assert hs == init + [last];
      ScanAllHas(ct, db, init, limit, p);
      forall e
        ensures Scanned(hs, e) <==> Scanned(init, e) || HasScore(last, e)
      {
        ScannedAppend(init, last, e);
      }
      if !HashIsZero(last) {
        ScanBoxHas(ct, db, last, limit, p);
      }
    }
  }

  lemma ScannedAppend(init: seq<Hash>, last: Hash, e: Entry)
    ensures Scanned(init + [last], e) <==> Scanned(init, e) || HasScore(last, e)
  {
    var hs := init + [last];
    assert hs[|init|] == last;
    if Scanned(init, e) {
      var h :| h in init && HasScore(h, e);
      assert h in hs;
    }
  }

  // ---------- the boxes of a query ----------

  lemma AroundBound(i: nat, d: int, step: nat)
    requires i <= Pow2(step)
    ensures Around(i, d, step) <= Pow2(step)
  {
    if d != 0 {
      DivMod(i + Sign(d), Pow2(step));
    }
  }

  lemma SizedByIndices(h: Hash)
    requires h.step <= 26 && Row(h.bits) <= Pow2(h.step) && Col(h.bits) <= Pow2(h.step)
    ensures CellSized(h)
  {
    CodeOfRowCol(h.bits);
    MortonBound(Row(h.bits), Col(h.bits), h.step + 1);
  }

  lemma ShiftedSized(h: Hash, dx: int, dy: int)
    requires 1 <= h.step <= 26 && Row(h.bits) <= Pow2(h.step) && Col(h.bits) <= Pow2(h.step)
    ensures CellSized(Shifted(h, dx, dy)) && Shifted(h, dx, dy).step == h.step
  {
    ShiftedCell(h, dx, dy);
    AroundBound(Row(h.bits), dy, h.step);
    AroundBound(Col(h.bits), dx, h.step);
    SizedByIndices(Shifted(h, dx, dy));
  }

  lemma CentreSized(q: Query)
    ensures var h := q.Areas().hash;
      CellSized(h) && Row(h.bits) <= Pow2(h.step) && Col(h.bits) <= Pow2(h.step)
  {
    var s := StepFor(q.radius);
    var h := CentreHash(q.ct, q.latitude, q.longitude, s);
    if q.OnMap() {
      IndexBounds(q.latitude, q.ct.LatRange(), s);
      IndexBounds(q.longitude, q.ct.LonRange(), s);
    } else {
      CodeOfRowCol(0);
      assert Val(0) == 0;
      CodeIsZero(Row(0), Col(0));
    }
    SizedByIndices(h);
  }

  predicate BoxOf(h: Hash, step: nat) { h == ZERO_HASH || (CellSized(h) && h.step == step) }

  lemma PrunedBoxes(n: Neighbors, step: nat, noNorth: bool, noSouth: bool, noEast: bool, noWest: bool,
                    h: Hash, a: Area, x: Hash)
    requires BoxOf(n.north, step) && BoxOf(n.south, step) && BoxOf(n.east, step) && BoxOf(n.west, step)
    requires BoxOf(n.northEast, step) && BoxOf(n.northWest, step) && BoxOf(n.southEast, step) && BoxOf(n.southWest, step)
    requires BoxOf(h, step)
    requires x in Boxes(GeoHashRadius(h, a, Pruned(n, noNorth, noSouth, noEast, noWest)))
    ensures BoxOf(x, step)
  {
  }

  /** Every hash a query scans is zeroed or a cell of the query's step. */
  lemma QueryBoxes(q: Query, x: Hash)
    requires x in Boxes(q.Areas())
    ensures BoxOf(x, StepFor(q.radius)) && Scannable(x)
  {
    CentreSized(q);
    var g := q.Areas();
    var h := g.hash;
    ShiftedSized(h, 0, 1);
    ShiftedSized(h, 0, -1);
    ShiftedSized(h, 1, 0);
    ShiftedSized(h, -1, 0);
    ShiftedSized(h, 1, 1);
    ShiftedSized(h, 1, -1);
    ShiftedSized(h, -1, 1);
    ShiftedSized(h, -1, -1);
    var b := q.Box();
    PrunedBoxes(NeighborsOf(h), h.step, g.area.latitude.max > b.maxLat, g.area.latitude.min < b.minLat,
                g.area.longitude.max > b.maxLon, g.area.longitude.min < b.minLon, h, g.area, x);
  }

  lemma QueryScannable(q: Query)
    ensures forall x | x in Boxes(q.Areas()) :: Scannable(x)
  {
    forall x | x in Boxes(q.Areas())
      ensures Scannable(x)
    {
      QueryBoxes(q, x);
    }
  }

  // ---------- the index against the naive search ----------

  /** The position a score decodes to lies in a scanned cell. */
  ghost predicate Indexed(q: Query, e: Entry)
    requires IsScore(e.score)
  {
    ScoreCells(q.ct, e.score, 1);
    Finds(q.ct, q.Areas(), ScoreLatitude(q.ct, e.score), ScoreLongitude(q.ct, e.score))
  }

  lemma IndexedIsScanned(q: Query, e: Entry)
    requires IsScore(e.score) && Indexed(q, e)
    ensures Scanned(Boxes(q.Areas()), e)
  {
    hide Areas, Boxes, Names, MortonCode, StepFor, ScoreLatitude, ScoreLongitude, Cell, HasScore;
    var s := StepFor(q.radius);
    ScoreCells(q.ct, e.score, s);
    var row := Cell(ScoreLatitude(q.ct, e.score), q.ct.LatRange(), s);
    var col := Cell(ScoreLongitude(q.ct, e.score), q.ct.LonRange(), s);
    var k :| 0 <= k < 9 && Names(Boxes(q.Areas())[k], row, col);
    var h := Boxes(q.Areas())[k];
    NamedScanned(q, h, e, row, col);
  }

  /** The box of a cell holds the cell's scores and the first one after them. */
  lemma NamedHas(q: Query, h: Hash, row: nat, col: nat, e: Entry)
    requires h in Boxes(q.Areas()) && Names(h, row, col)
    requires var k := 52 - 2 * StepFor(q.radius);
      Lift(MortonCode(row, col), k) <= e.score <= Lift(MortonCode(row, col) + 1, k)
    ensures HasScore(h, e)
  {
    hide Areas, Boxes, MortonCode, Lift, Pow2, Val, Row, Col;
    QueryBoxes(q, h);
    CodeOfRowCol(h.bits);
    AlignVal(h);
  }

  lemma NamedScanned(q: Query, h: Hash, e: Entry, row: nat, col: nat)
    requires h in Boxes(q.Areas()) && Names(h, row, col)
    requires MortonCode(row, col) == Drop(e.score, 52 - 2 * StepFor(q.radius))
    ensures HasScore(h, e)
  {
    hide Areas, Boxes, Names, MortonCode, Lift, Drop, HasScore;
    DropIsBlock(e.score, 52 - 2 * StepFor(q.radius), MortonCode(row, col));
    NamedHas(q, h, row, col, e);
  }

  /** The points of all nine boxes, as joined. */
  function QueryPoints(q: Query, db: Zset, limit: nat): seq<GeoPoint> {
    QueryScannable(q);
    ScanAll(q.ct, db, Boxes(q.Areas()), limit)
  }

  /** The first and the last point pass: the filter loop then never unlinks a node at an end of the list. */
  predicate EndsKept(q: Query, ps: seq<GeoPoint>) {
    ps == [] || (Keeps(q, ps[0]) && Keeps(q, ps[|ps| - 1]))
  }

  /** ssdb_geo_members gets through without following a null pointer. */
  predicate RunDefined(q: Query, db: Zset, limit: nat) {
    var ps := QueryPoints(q, db, limit);
    ps != [] && EndsKept(q, ps)
  }

  /** What a search returns before sorting; the naive search tests every member. */
  function Search(q: Query, db: Zset, limit: nat): seq<GeoPoint> {
    Filtered(q, QueryPoints(q, db, limit))
  }

  function NaiveSearch(q: Query, db: Zset): seq<GeoPoint> {
    Filtered(q, PointsOf(q.ct, db))
  }

  /** The search leaves out the centre member and nobody else: names of the same length are compared
      up to a NUL. */
  lemma CentreIsMember(q: Query, member: string)
    ensures IsCentre(q, member) <==> |member| == |q.centre| && CStr(member) == CStr(q.centre)
  {
    if |member| == |q.centre| {
      StrNEqSameLength(q.centre, member);
    }
  }

  predicate Other(centre: string, member: string) { |member| != |centre| || CStr(member) != CStr(centre) }

  /** The element is one to be found: another member, no further away than the radius ... */
  predicate Wanted(q: Query, e: Entry) {
    Other(q.centre, e.member) && InRadius(q, ScoreLatitude(q.ct, e.score), ScoreLongitude(q.ct, e.score))
  }

  /** ... as the point with its decoded position and its distance. */
  function FoundOf(q: Query, e: Entry): GeoPoint {
    var latitude, longitude := ScoreLatitude(q.ct, e.score), ScoreLongitude(q.ct, e.score);
    GeoPoint(e.member, latitude, longitude, Distance(q, latitude, longitude))
  }

  /** What the naive search finds: the wanted elements. */
  lemma NaiveFinds(q: Query, db: Zset, p: GeoPoint)
    ensures p in NaiveSearch(q, db) <==> exists e :: e in db && Wanted(q, e) && p == FoundOf(q, e)
  {
    FilteredHas(q, PointsOf(q.ct, db), p);
    forall e | e in db
      ensures PointOf(q.ct, e) in PointsOf(q.ct, db)
    {
      PointsHas(q.ct, db, PointOf(q.ct, e));
    }
    forall e
      ensures Keeps(q, PointOf(q.ct, e)) <==> Wanted(q, e)
    {
      WantedKept(q, e);
    }
    forall o | o in PointsOf(q.ct, db)
      ensures exists e :: e in db && o == PointOf(q.ct, e)
    {
      PointsHas(q.ct, db, o);
    }
  }

  lemma WantedKept(q: Query, e: Entry)
    ensures Keeps(q, PointOf(q.ct, e)) <==> Wanted(q, e)
    ensures Measured(q, PointOf(q.ct, e)) == FoundOf(q, e)
  {
    CentreIsMember(q, e.member);
  }

  ghost predicate DistinctEntries(db: Zset) {
    forall i, j | 0 <= i < j < |db| :: db[i].member != db[j].member
  }

  /** The server's order: by score, then by name. */
  predicate Earlier(a: Entry, b: Entry) { a.score < b.score || (a.score == b.score && NameBefore(a.member, b.member)) }

  /** A sorted set as the server holds it: no member twice, in its order. */
  ghost predicate SortedSet(db: Zset) {
    DistinctEntries(db) && forall i, j | 0 <= i < j < |db| :: Earlier(db[i], db[j])
  }

  lemma SortedWith(es: Zset, last: Entry)
    requires SortedSet(es) && forall e | e in es :: Earlier(e, last) && e.member != last.member
    ensures SortedSet(es + [last])
  {
    hide Earlier;
  }

  lemma SortedWithout(es: Zset)
    requires SortedSet(es) && es != []
    ensures var init, last := es[..|es| - 1], es[|es| - 1];
      SortedSet(init) && forall e | e in init :: Earlier(e, last) && e.member != last.member
  {
    hide Earlier;
  }

  lemma {:induction false} InRangeSorted(db: Zset, lo: nat, hi: nat)
    requires SortedSet(db)
    ensures SortedSet(InRange(db, lo, hi))
  {
    hide Earlier, InInterval, SortedSet;
    if db != [] {
      var init, last := db[..|db| - 1], db[|db| - 1];
      SortedWithout(db);
      InRangeSorted(init, lo, hi);
      forall e | e in InRange(init, lo, hi)
        ensures e in init
      {
        InRangeHas(init, lo, hi, e);
      }
      SortedWith(InRange(init, lo, hi), last);
      assert InRange(init, lo, hi) + [] == InRange(init, lo, hi);
    } else {
      assert SortedSet([]) by { NoEntries(); }
    }
  }

  lemma NoEntries()
    ensures SortedSet([])
  {
  }

  /** The limit cuts off the last elements of the interval: where one is missing, as many as the limit
      are given, all before it. */
  lemma ZscanFirst(db: Zset, lo: nat, hi: nat, limit: nat, e: Entry)
    requires SortedSet(db) && e in db && lo <= e.score <= hi
    ensures var es := Zscan(db, lo, hi, limit);
      && |es| <= limit && SortedSet(es)
      && (e !in es ==> |es| == limit && forall d | d in es :: d in db && lo <= d.score <= hi && Earlier(d, e))
  {
    hide Earlier;
    var all, es := InRange(db, lo, hi), Zscan(db, lo, hi, limit);
    InRangeSorted(db, lo, hi);
    InRangeHas(db, lo, hi, e);
    var j :| 0 <= j < |all| && all[j] == e;
    if j < |es| {
      assert es[j] == e;
    } else {
      forall d | d in es
        ensures d in db && lo <= d.score <= hi && Earlier(d, e)
      {
        var i :| 0 <= i < |es| && es[i] == d;
        assert all[i] == d;
        InRangeHas(db, lo, hi, d);
      }
    }
  }

  ghost predicate OnGridScores(db: Zset) { forall e | e in db :: IsScore(e.score) }

  ghost predicate SameFound(a: seq<GeoPoint>, b: seq<GeoPoint>) {
    forall p :: p in a <==> p in b
  }

  /** If every member that passes the test has its score in a scanned interval, the index search and
      the naive search find the same points at the same distances... */
  lemma ScannedRefinesNaive(q: Query, db: Zset, limit: nat)
    requires limit >= |db|
    requires forall e | e in db && Keeps(q, PointOf(q.ct, e)) :: Scanned(Boxes(q.Areas()), e)
    ensures SameFound(Search(q, db, limit), NaiveSearch(q, db))
  {
    forall p
      ensures p in Search(q, db, limit) <==> p in NaiveSearch(q, db)
    {
      SamePoint(q, db, limit, p);
    }
  }

  lemma SamePoint(q: Query, db: Zset, limit: nat, p: GeoPoint)
    requires limit >= |db|
    requires forall e | e in db && Keeps(q, PointOf(q.ct, e)) :: Scanned(Boxes(q.Areas()), e)
    ensures p in Search(q, db, limit) <==> p in NaiveSearch(q, db)
  {
    hide Areas, Boxes, PointOf, Scanned, Keeps, Filtered, ScanAll;
    var hs := Boxes(q.Areas());
    QueryScannable(q);
    FilteredHas(q, QueryPoints(q, db, limit), p);
    FilteredHas(q, PointsOf(q.ct, db), p);
    forall o
      ensures o in QueryPoints(q, db, limit) <==> exists e :: e in db && Scanned(hs, e) && o == PointOf(q.ct, e)
      ensures o in PointsOf(q.ct, db) <==> exists e :: e in db && o == PointOf(q.ct, e)
    {
      ScanAllHas(q.ct, db, hs, limit, o);
      PointsHas(q.ct, db, o);
    }
  }

  /** ... and so they do if every such member lies in a scanned cell. */
  lemma IndexRefinesNaive(q: Query, db: Zset, limit: nat)
    requires OnGridScores(db) && limit >= |db|
    requires forall e | e in db && Keeps(q, PointOf(q.ct, e)) :: Indexed(q, e)
    ensures SameFound(Search(q, db, limit), NaiveSearch(q, db))
  {
    forall e | e in db && Keeps(q, PointOf(q.ct, e))
      ensures Scanned(Boxes(q.Areas()), e)
    {
      IndexedIsScanned(q, e);
    }
    ScannedRefinesNaive(q, db, limit);
  }

  /** The Mercator type: below the map's half width the index finds exactly what the naive search finds. */
  lemma MercatorSearch(q: Query, db: Zset, limit: nat)
    requires q.ct == Mercator && q.OnMap() && 0.0 <= q.radius < MERCATOR_MAX
    requires OnGridScores(db) && limit >= |db|
    ensures SameFound(Search(q, db, limit), NaiveSearch(q, db))
  {
    forall e | e in db && Keeps(q, PointOf(q.ct, e))
      ensures Indexed(q, e)
    {
      KeptIndexed(q, e);
    }
    IndexRefinesNaive(q, db, limit);
  }

  lemma KeptIndexed(q: Query, e: Entry)
    requires q.ct == Mercator && q.OnMap() && 0.0 <= q.radius < MERCATOR_MAX
    requires IsScore(e.score) && Keeps(q, PointOf(q.ct, e))
    ensures Indexed(q, e)
  {
    hide Finds, ScoreLatitude, ScoreLongitude;
    ScoreCells(q.ct, e.score, 1);
    SmallDisc(q.latitude, q.longitude, q.radius, ScoreLatitude(q.ct, e.score), ScoreLongitude(q.ct, e.score));
  }

  predicate BoxWithinCell(q: Query)
    requires q.ct.WGS84?
  {
    && q.ct.InWorld(q.latitude, q.longitude) && q.Box().Has(q.latitude, q.longitude)
    && Reaches(q.latitude, WGS84_LAT, StepFor(q.radius), q.Box().minLat, q.Box().maxLat)
    && Reaches(q.longitude, WGS84_LON, StepFor(q.radius), q.Box().minLon, q.Box().maxLon)
  }

  ghost predicate PassersInBox(q: Query, db: Zset) {
    forall e | e in db && Keeps(q, PointOf(q.ct, e)) ::
      q.Box().Has(ScoreLatitude(q.ct, e.score), ScoreLongitude(q.ct, e.score))
  }

  /** WGS84: whenever the bounding box contains every member within the radius and stays within one
      cell of the centre's, the index finds exactly what the naive search finds. */
  lemma Wgs84Search(q: Query, db: Zset, limit: nat)
    requires q.ct.WGS84? && BoxWithinCell(q) && PassersInBox(q, db)
    requires OnGridScores(db) && limit >= |db|
    ensures SameFound(Search(q, db, limit), NaiveSearch(q, db))
  {
    BoxFoundExactly(q.ct, q.latitude, q.longitude, q.radius);
    forall e | e in db && Keeps(q, PointOf(q.ct, e))
      ensures Indexed(q, e)
    {
      ScoreCells(q.ct, e.score, 1);
    }
    IndexRefinesNaive(q, db, limit);
  }

  /** What is known before the search to make it complete: a Mercator radius below the map's half width,
      or a WGS84 bounding box that holds the passing members and stays within one cell. */
  ghost predicate KnownComplete(q: Query, db: Zset) {
    && OnGridScores(db)
    && (if q.ct == Mercator then q.OnMap() && 0.0 <= q.radius < MERCATOR_MAX
        else BoxWithinCell(q) && PassersInBox(q, db))
  }

  lemma KnownCompleteRefines(q: Query, db: Zset, limit: nat)
    requires KnownComplete(q, db) && limit >= |db|
    ensures SameFound(Search(q, db, limit), NaiveSearch(q, db))
  {
    if q.ct == Mercator {
      MercatorSearch(q, db, limit);
    } else {
      Wgs84Search(q, db, limit);
    }
  }

  // ---------- how often a member is listed ----------

  /** The number of scanned boxes whose interval holds the element's score. */
  function Times(hs: seq<Hash>, e: Entry): nat {
    if hs == [] then 0 else Times(hs[..|hs| - 1], e) + (if HasScore(hs[|hs| - 1], e) then 1 else 0)
  }

  lemma {:induction false} ListedInBox(ct: CoordType, db: Zset, lo: nat, hi: nat, e: Entry)
    requires DistinctEntries(db) && e in db
    ensures multiset(PointsOf(ct, InRange(db, lo, hi)))[PointOf(ct, e)] == if InInterval(e, lo, hi) then 1 else 0
  {
    hide PointOf, InInterval, PointsOf;
    var init, last := db[..|db| - 1], db[|db| - 1];
    assert db == init + [last];
    PointsOfBoth(ct, InRange(init, lo, hi), if InInterval(last, lo, hi) then [last] else []);
    ListedAlone(ct, last);
    hide InRange;
    if e in init {
      ListedInBox(ct, init, lo, hi, e);
      OtherPoint(ct, e, last);
    } else {
      NotListed(ct, init, lo, hi, e);
    }
  }

  lemma ListedAlone(ct: CoordType, e: Entry)
    ensures PointsOf(ct, [e]) == [PointOf(ct, e)] && PointsOf(ct, []) == []
  {
  }

  lemma PointsOfBoth(ct: CoordType, a: seq<Entry>, b: seq<Entry>)
    ensures multiset(PointsOf(ct, a + b)) == multiset(PointsOf(ct, a)) + multiset(PointsOf(ct, b))
  {
    assert PointsOf(ct, a + b) == PointsOf(ct, a) + PointsOf(ct, b);
  }

  lemma OtherPoint(ct: CoordType, e: Entry, f: Entry)
    ensures PointOf(ct, e) == PointOf(ct, f) ==> e.member == f.member
  {
  }

  lemma NotListed(ct: CoordType, db: Zset, lo: nat, hi: nat, e: Entry)
    requires forall f | f in db :: f.member != e.member
    ensures PointOf(ct, e) !in multiset(PointsOf(ct, InRange(db, lo, hi)))
  {
    hide PointOf;
    PointsHas(ct, InRange(db, lo, hi), PointOf(ct, e));
    forall f | f in InRange(db, lo, hi)
      ensures PointOf(ct, f) != PointOf(ct, e)
    {
      InRangeHas(db, lo, hi, f);
      OtherPoint(ct, e, f);
    }
  }

  /** With no limit in the way, a member is listed exactly as often as there are scanned boxes whose
      inclusive interval holds its score. */
  lemma {:induction false} ListedTimes(ct: CoordType, db: Zset, hs: seq<Hash>, limit: nat, e: Entry)
    requires (forall h | h in hs :: Scannable(h)) && limit >= |db| && DistinctEntries(db) && e in db
    ensures multiset(ScanAll(ct, db, hs, limit))[PointOf(ct, e)] == Times(hs, e)
  {
    hide PointOf;
    if hs != [] {
      var init, last := hs[..|hs| - 1], hs[|hs| - 1];
      assert hs == init + [last];
      assert Scannable(last);
      ListedTimes(ct, db, init, limit, e);
      if !HashIsZero(last) {
        ListedInBox(ct, db, LowScore(last), HighScore(last), e);
        InRangeHas(db, LowScore(last), HighScore(last), e);
      }
    }
  }
}
