// Where the Mercator search stops agreeing with testing every member.
module SearchLimits {
  import opened Arith
  import opened Words
  import opened Morton
  import opened Geohash
  import opened GeoRadius
  import opened Coverage
  import opened GeoIndex
  import opened GeoSearch

  /** The scanned boxes lie in the centre's row or in the rows next to it. */
  lemma ScannedRows(q: Query, h: Hash)
    requires q.OnMap() && h in Boxes(q.Areas()) && !HashIsZero(h)
    ensures var s := StepFor(q.radius);
      var c := Cell(q.latitude, q.ct.LatRange(), s);
      Row(h.bits) in {c, Around(c, 1, s), Around(c, -1, s)}
  {
    var s := StepFor(q.radius);
    var k :| 0 <= k < 9 && Boxes(q.Areas())[k] == h;
    assert Names(h, Row(h.bits), Col(h.bits));
    EncodeDecode(q.ct.LatRange(), q.ct.LonRange(), q.latitude, q.longitude, s);
    CoveredIsProduct(q.ct, CentreHash(q.ct, q.latitude, q.longitude, s), q.Box(), Row(h.bits), Col(h.bits));
  }

  lemma OddBlock(n: nat, b: nat, m: nat, v: nat, r: nat, c: nat, m': nat)
    requires b < 2 && r < 2 && c < 2 && n == 1 + 2 * b + 4 * m && v == r + 2 * c + 4 * m'
    ensures v <= n <= v + 1 ==> m == m'
  {
  }

  /** The odd row of a pair of rows is in no interval of a step-26 box of another pair. */
  lemma OddRowMissed(h: Hash, member: string, k: nat, col: nat)
    requires CellSized(h) && h.step == 26 && Row(h.bits) / 2 != k
    ensures !HasScore(h, Entry(member, MortonCode(2 * k + 1, col)))
  {
    hide Row, Col, MortonCode, Pow2, Val, Align52;
    AlignVal(h);
    CodeOfRowCol(h.bits);
    MortonDigits(Row(h.bits), Col(h.bits));
    FirstDigit(1, k);
    MortonDigits(2 * k + 1, col);
    OddBlock(MortonCode(2 * k + 1, col), col % 2, MortonCode(k, col / 2),
             Val(h.bits), Row(h.bits) % 2, Col(h.bits) % 2, MortonCode(Row(h.bits) / 2, Col(h.bits) / 2));
    if MortonCode(Row(h.bits) / 2, Col(h.bits) / 2) == MortonCode(k, col / 2) {
      MortonInjective(Row(h.bits) / 2, Col(h.bits) / 2, k, col / 2);
    }
  }

  lemma FarPairs(c: nat, i: nat, m: nat)
    requires m >= 2 && c < Pow2(m + 2) && (i == c + Pow2(m) || c == i + Pow2(m))
    ensures forall r | r in {c, Around(c, 1, m + 2), Around(c, -1, m + 2)} :: r / 2 != i / 2
  {
    var n := Pow2(m + 2);
    assert n == 2 * Pow2(m + 1) && Pow2(m + 1) == 2 * Pow2(m);
    Pow2Mono(2, m);
    AroundCases(c, 1, m + 2);
    AroundCases(c, -1, m + 2);
  }

  // ---------- which scores are scanned ----------

  /** The query keeps the cell with number n at its step: its row on one axis, its column on the other. */
  predicate KeepsCell(q: Query, n: nat)
    requires q.OnMap()
  {
    var s, b := StepFor(q.radius), q.Box();
    && AxisKeeps(Cell(q.latitude, q.ct.LatRange(), s), q.ct.LatRange(), s, b.minLat, b.maxLat, EvenDigits(n))
    && AxisKeeps(Cell(q.longitude, q.ct.LonRange(), s), q.ct.LonRange(), s, b.minLon, b.maxLon, OddDigits(n))
  }

  /** The score is one of a kept cell, or the first one after a kept cell. */
  predicate ScansScore(q: Query, score: nat)
    requires q.OnMap()
  {
    var k := 52 - 2 * StepFor(q.radius);
    var n := Drop(score, k);
    KeepsCell(q, n) || (n > 0 && score == Lift(n, k) && KeepsCell(q, n - 1))
  }

  /** In closed form, without the boxes: which scores a search scans. */
  lemma ScannedExactly(q: Query, e: Entry)
    requires q.OnMap()
    ensures Scanned(Boxes(q.Areas()), e) <==> ScansScore(q, e.score)
  {
    hide Areas, Boxes, KeepsCell, HasScore, Drop, Lift;
    var k := 52 - 2 * StepFor(q.radius);
    var n := Drop(e.score, k);
    DropIsBlock(e.score, k, n);
    if KeepsCell(q, n) {
      KeptIsBox(q, n, e);
    }
    if n > 0 && e.score == Lift(n, k) && KeepsCell(q, n - 1) {
      LiftMono(n - 1, n, k);
      KeptIsBox(q, n - 1, e);
    }
    if Scanned(Boxes(q.Areas()), e) {
      var h :| h in Boxes(q.Areas()) && HasScore(h, e);
      BoxIsKept(q, h, e);
    }
  }

  /** A kept cell is scanned, with its scores and the first one after them. */
  lemma KeptIsBox(q: Query, n: nat, e: Entry)
    requires q.OnMap() && KeepsCell(q, n)
    requires var k := 52 - 2 * StepFor(q.radius); Lift(n, k) <= e.score <= Lift(n + 1, k)
    ensures Scanned(Boxes(q.Areas()), e)
  {
    hide Areas, Boxes, Names, MortonCode, EvenDigits, OddDigits, Lift, StepFor, KeepsCell, HasScore;
    var i := KeptIsNamed(q, n);
    DigitsOfCode(n);
    NamedHas(q, Boxes(q.Areas())[i], EvenDigits(n), OddDigits(n), e);
  }

  lemma KeptIsNamed(q: Query, n: nat) returns (i: nat)
    requires q.OnMap() && KeepsCell(q, n)
    ensures i < 9 && Names(Boxes(q.Areas())[i], EvenDigits(n), OddDigits(n))
  {
    hide Boxes, Names, AxisKeeps, EvenDigits, OddDigits, StepFor, Row, Col;
    var s := StepFor(q.radius);
    CoveredIsProduct(q.ct, CentreHash(q.ct, q.latitude, q.longitude, s), q.Box(), EvenDigits(n), OddDigits(n));
    i :| 0 <= i < 9 && Names(Boxes(q.Areas())[i], EvenDigits(n), OddDigits(n));
  }

  lemma BoxNumberKept(q: Query, h: Hash)
    requires q.OnMap() && h in Boxes(q.Areas()) && !HashIsZero(h)
    ensures KeepsCell(q, Val(h.bits))
  {
    hide Areas, Boxes, AxisKeeps, MortonCode, EvenDigits, OddDigits, StepFor, Row, Col, Val, Cell;
    BoxCellKept(q, h);
    CodeOfRowCol(h.bits);
    DigitsOfCode(Val(h.bits));
    MortonInjective(Row(h.bits), Col(h.bits), EvenDigits(Val(h.bits)), OddDigits(Val(h.bits)));
  }

  lemma BoxHolds(h: Hash, s: nat, e: Entry)
    requires HasScore(h, e) && h.step == s
    ensures Drop(e.score, 52 - 2 * s) == Val(h.bits) || e.score == Lift(Val(h.bits) + 1, 52 - 2 * s)
  {
    hide Lift, Drop, Pow2, Val, LowScore, HighScore;
    ScanInterval(h, e.score);
    AlignVal(h);
  }

  /** What a scanned box holds is a score of a kept cell, or the first one after it. */
  lemma BoxIsKept(q: Query, h: Hash, e: Entry)
    requires q.OnMap() && h in Boxes(q.Areas()) && HasScore(h, e)
    ensures ScansScore(q, e.score)
  {
    hide Areas, Boxes, KeepsCell, Lift, Drop, StepFor, Pow2, Val, LowScore, HighScore;
    var s := StepFor(q.radius);
    QueryBoxes(q, h);
    BoxNumberKept(q, h);
    BoxHolds(h, s, e);
    NumberOf(e.score, Val(h.bits), 52 - 2 * s);
  }

  lemma NumberOf(score: nat, n: nat, k: nat)
    requires Drop(score, k) == n || score == Lift(n + 1, k)
    ensures Drop(score, k) == n || (Drop(score, k) == n + 1 && score == Lift(n + 1, k))
  {
    DropIsBlock(score, k, n + 1);
    LiftMono(n + 1, n + 2, k);
  }

  lemma BoxCellKept(q: Query, h: Hash)
    requires q.OnMap() && h in Boxes(q.Areas()) && !HashIsZero(h)
    ensures var s, b := StepFor(q.radius), q.Box();
      && AxisKeeps(Cell(q.latitude, q.ct.LatRange(), s), q.ct.LatRange(), s, b.minLat, b.maxLat, Row(h.bits))
      && AxisKeeps(Cell(q.longitude, q.ct.LonRange(), s), q.ct.LonRange(), s, b.minLon, b.maxLon, Col(h.bits))
  {
    hide AxisKeeps;
    var s := StepFor(q.radius);
    var k :| 0 <= k < 9 && Boxes(q.Areas())[k] == h;
    assert Names(h, Row(h.bits), Col(h.bits));
    CoveredIsProduct(q.ct, CentreHash(q.ct, q.latitude, q.longitude, s), q.Box(), Row(h.bits), Col(h.bits));
  }

  // ---------- the middle of a range ----------

  /** In a range around 0 the upper half of the cells begins there. */
  lemma MiddleCell(range: Range, n: nat)
    requires range.Proper() && range.min == -range.max
    ensures Corner(Pow2(n), range, n + 1) == 0.0 && Cell(0.0, range, n + 1) == Pow2(n)
  {
    hide Pow2, Corner, Index, Side;
    CornerStep(Pow2(n), range, n + 1);
    HalfSides(range, n);
    IndexOfCorner(Pow2(n), range, n + 1);
  }

  lemma HalfSides(range: Range, n: nat)
    ensures Pow2(n) as real * Side(range, n + 1) == range.Width() / 2.0
  {
    hide Pow2;
    Pow2RIsPow2(n);
    assert Pow2R(n + 1) == 2.0 * Pow2R(n);
    HalfOfQuotient(Pow2R(n), range.Width());
  }

  lemma HalfOfQuotient(p: real, w: real)
    requires p > 0.0
    ensures p * (w / (2.0 * p)) == w / 2.0
  {
  }

  // ---------- stored scores ----------

  /** The score of a cell of the finest grid is stored for its minimum corner. */
  lemma CellScore(ct: CoordType, i: nat, j: nat)
    requires i < Pow2(26) && j < Pow2(26)
    ensures IsScore(MortonCode(i, j))
    ensures ScoreLatitude(ct, MortonCode(i, j)) == Corner(i, ct.LatRange(), 26)
    ensures ScoreLongitude(ct, MortonCode(i, j)) == Corner(j, ct.LonRange(), 26)
  {
    hide MortonCode, Pow2, EvenDigits, OddDigits, Corner;
    MortonBound(i, j, 26);
    DigitsOfCode(MortonCode(i, j));
    MortonInjective(i, j, EvenDigits(MortonCode(i, j)), OddDigits(MortonCode(i, j)));
  }

  /** The score a member at the centre's own position has. */
  function OwnScore(q: Query): nat
    requires q.ct.InWorld(q.latitude, q.longitude)
  {
    MortonCode(Cell(q.latitude, q.ct.LatRange(), 26), Cell(q.longitude, q.ct.LonRange(), 26))
  }

  lemma OwnPosition(q: Query)
    requires q.ct.InWorld(q.latitude, q.longitude)
    ensures IsScore(OwnScore(q))
    ensures ScoreLatitude(q.ct, OwnScore(q)) == Corner(Cell(q.latitude, q.ct.LatRange(), 26), q.ct.LatRange(), 26)
    ensures ScoreLongitude(q.ct, OwnScore(q)) == Corner(Cell(q.longitude, q.ct.LonRange(), 26), q.ct.LonRange(), 26)
  {
    hide Cell, Corner, Pow2;
    OnGridAxis(q.latitude, q.ct.LatRange());
    OnGridAxis(q.longitude, q.ct.LonRange());
    CellScore(q.ct, Cell(q.latitude, q.ct.LatRange(), 26), Cell(q.longitude, q.ct.LonRange(), 26));
  }

  /** A coordinate and the minimum corner of its finest cell are in the same cell at every step. */
  lemma OwnCell(v: real, range: Range, s: nat)
    requires range.Proper() && range.Inside(v) && s <= 26
    ensures range.Inside(Corner(Cell(v, range, 26), range, 26))
    ensures Cell(Corner(Cell(v, range, 26), range, 26), range, s) == Cell(v, range, s)
  {
    hide Corner, Index, Drop;
    OnGridAxis(v, range);
    CornerCell(Cell(v, range, 26), range, s);
    CellShift(v, range, s, 26 - s);
  }

  /** The centre's own cell is always scanned. */
  lemma OwnScanned(q: Query, member: string)
    requires q.ct.InWorld(q.latitude, q.longitude)
    ensures Scanned(Boxes(q.Areas()), Entry(member, OwnScore(q)))
  {
    hide Cell, Corner, Boxes, Areas, OwnScore, Scanned, StepFor, ScoreLatitude, ScoreLongitude;
    var s := StepFor(q.radius);
    OwnPosition(q);
    OwnCell(q.latitude, q.ct.LatRange(), s);
    OwnCell(q.longitude, q.ct.LonRange(), s);
    FindsIsProduct(q.ct, q.latitude, q.longitude, q.radius,
                   ScoreLatitude(q.ct, OwnScore(q)), ScoreLongitude(q.ct, OwnScore(q)));
    IndexedIsScanned(q, Entry(member, OwnScore(q)));
  }

  // ---------- a missed member ----------

  /** Whatever is stored, each run that gets through finds exactly what testing every member finds. */
  ghost predicate AlwaysRefines(q: Query) {
    forall db, limit: nat | SortedSet(db) && OnGridScores(db) && limit >= |db| && RunDefined(q, db, limit) ::
      SameFound(Search(q, db, limit), NaiveSearch(q, db))
  }

  /** Two elements in the server's order. */
  function Couple(a: Entry, b: Entry): (db: Zset)
    ensures a.member != b.member && a.score != b.score ==> SortedSet(db)
    ensures db == [a, b] || db == [b, a]
  {
    if a.score < b.score then [a, b] else [b, a]
  }

  /** With a scanned and an unscanned member that pass the test stored, the run gets through and
      misses the second. */
  lemma MissedMember(q: Query, n: Entry, e: Entry)
    requires IsScore(n.score) && IsScore(e.score) && n.member != e.member
    requires Keeps(q, PointOf(q.ct, n)) && Scanned(Boxes(q.Areas()), n)
    requires Keeps(q, PointOf(q.ct, e)) && !Scanned(Boxes(q.Areas()), e)
    ensures SortedSet(Couple(n, e)) && RunDefined(q, Couple(n, e), 2)
    ensures !SameFound(Search(q, Couple(n, e), 2), NaiveSearch(q, Couple(n, e)))
  {
    hide Areas, Boxes, PointOf, Scanned, Keeps, Filtered, ScanAll, SortedSet;
    ScoresApart(q, n, e);
    var db, p := Couple(n, e), Measured(q, PointOf(q.ct, e));
    assert e in db;
    PointsHas(q.ct, db, PointOf(q.ct, e));
    FilteredHas(q, PointsOf(q.ct, db), p);
    OnlyScanned(q, n, e, db);
    FilteredHas(q, QueryPoints(q, db, 2), p);
    PointMembers(q, n, e);
    var ps := QueryPoints(q, db, 2);
    assert ps[0] in ps && ps[|ps| - 1] in ps;
  }

  /** A box holds a score whoever has it. */
  lemma ScoresApart(q: Query, n: Entry, e: Entry)
    requires Scanned(Boxes(q.Areas()), n) && !Scanned(Boxes(q.Areas()), e)
    ensures n.score != e.score
  {
    hide Areas, Boxes;
    var h :| h in Boxes(q.Areas()) && HasScore(h, n);
    assert !HasScore(h, e);
  }

  lemma OnlyScanned(q: Query, n: Entry, e: Entry, db: Zset)
    requires Scanned(Boxes(q.Areas()), n) && !Scanned(Boxes(q.Areas()), e) && (db == [n, e] || db == [e, n])
    ensures QueryPoints(q, db, 2) != []
    ensures forall o | o in QueryPoints(q, db, 2) :: o == PointOf(q.ct, n)
  {
    hide Areas, Boxes, PointOf, Scanned, ScanAll;
    QueryScannable(q);
    assert n in db;
    ScanAllHas(q.ct, db, Boxes(q.Areas()), 2, PointOf(q.ct, n));
    forall o | o in QueryPoints(q, db, 2)
      ensures o == PointOf(q.ct, n)
    {
      ScanAllHas(q.ct, db, Boxes(q.Areas()), 2, o);
    }
  }

  lemma PointMembers(q: Query, n: Entry, e: Entry)
    requires n.member != e.member
    ensures Measured(q, PointOf(q.ct, n)) != Measured(q, PointOf(q.ct, e))
  {
  }

  /** A member stored with the score is within the radius. */
  predicate ScoreReaches(q: Query, score: nat) {
    InRadius(q, ScoreLatitude(q.ct, score), ScoreLongitude(q.ct, score))
  }

  /** For both types and whatever the distances: the runs that get through all agree with testing every
      member exactly when the scores within the radius are all scanned, or none is. */
  lemma AlwaysRefinesExactly(q: Query)
    requires q.OnMap()
    ensures AlwaysRefines(q) <==>
      || (forall score: nat | IsScore(score) && ScoreReaches(q, score) :: ScansScore(q, score))
      || (forall score: nat | IsScore(score) && ScoreReaches(q, score) :: !ScansScore(q, score))
  {
    hide ScoreReaches, ScansScore, RunDefined, Search, NaiveSearch, SortedSet;
    if a, b: nat :|
      IsScore(a) && ScoreReaches(q, a) && ScansScore(q, a) && IsScore(b) && ScoreReaches(q, b) && !ScansScore(q, b) {
      TwoScores(q, a, b);
    } else {
      forall db, limit: nat | SortedSet(db) && OnGridScores(db) && limit >= |db| && RunDefined(q, db, limit)
        ensures SameFound(Search(q, db, limit), NaiveSearch(q, db))
      {
        var e := DefinedScans(q, db, limit);
        AllScanned(q, db, limit);
      }
    }
  }

  /** Members with a scanned and an unscanned score within the radius. */
  lemma TwoScores(q: Query, a: nat, b: nat)
    requires q.OnMap() && IsScore(a) && ScoreReaches(q, a) && ScansScore(q, a)
    requires IsScore(b) && ScoreReaches(q, b) && !ScansScore(q, b)
    ensures !AlwaysRefines(q)
  {
    hide ScansScore, RunDefined, Search, NaiveSearch, SortedSet, Areas, Boxes, Scanned, Keeps, PointOf;
    var n, e := Entry(q.centre + "''", a), Entry(q.centre + "'", b);
    WantedKept(q, n);
    WantedKept(q, e);
    ScannedExactly(q, n);
    ScannedExactly(q, e);
    MissedMember(q, n, e);
    assert OnGridScores(Couple(n, e));
  }

  /** A run that gets through has scanned a member within the radius. */
  lemma DefinedScans(q: Query, db: Zset, limit: nat) returns (e: Entry)
    requires q.OnMap() && limit >= |db| && RunDefined(q, db, limit)
    ensures e in db && ScoreReaches(q, e.score) && ScansScore(q, e.score)
  {
    hide Areas, Boxes, ScansScore, PointOf, Scanned, ScanAll, Keeps;
    QueryScannable(q);
    var ps := QueryPoints(q, db, limit);
    ScanAllHas(q.ct, db, Boxes(q.Areas()), limit, ps[0]);
    assert ps[0] in ps;
    e :| e in db && Scanned(Boxes(q.Areas()), e) && ps[0] == PointOf(q.ct, e);
    WantedKept(q, e);
    ScannedExactly(q, e);
  }

  lemma AllScanned(q: Query, db: Zset, limit: nat)
    requires q.OnMap() && limit >= |db| && forall e | e in db && ScoreReaches(q, e.score) :: ScansScore(q, e.score)
    ensures SameFound(Search(q, db, limit), NaiveSearch(q, db))
  {
    hide Areas, Boxes, ScansScore, PointOf, Scanned, Keeps, Search, NaiveSearch, SameFound;
    forall e | e in db && Keeps(q, PointOf(q.ct, e))
      ensures Scanned(Boxes(q.Areas()), e)
    {
      WantedKept(q, e);
      ScannedExactly(q, e);
    }
    ScannedRefinesNaive(q, db, limit);
  }

  // ---------- the Mercator type ----------

  /** A stored score a quarter of the map to the north or south of the centre. */
  function FarScore(k: nat, longitude: real): nat
    requires MERCATOR_RANGE.Inside(longitude)
  {
    MortonCode(2 * k + 1, Cell(longitude, MERCATOR_RANGE, 26))
  }

  lemma TinySide()
    ensures 0.0 < Side(MERCATOR_RANGE, 26) <= MERCATOR_MAX / 8.0
  {
    hide Pow2;
    CornerStep(0, MERCATOR_RANGE, 26);
    QuarterSide(MERCATOR_RANGE, 24);
    Pow2Exceeds(24);
    RealMulMono(24.0, Pow2(24) as real, Side(MERCATOR_RANGE, 26));
  }

  /** Both edges of a coordinate's cell are at most a side away. */
  lemma NearEdges(p: real, range: Range)
    requires range.Proper() && range.Inside(p)
    ensures var i := Cell(p, range, 26);
      && 0.0 <= p - Corner(i, range, 26) <= Side(range, 26)
      && 0.0 <= Corner(i + 1, range, 26) - p <= Side(range, 26)
  {
    hide Corner, Side, Index;
    IndexIsCell(p, range, 26, Cell(p, range, 26));
    CornerStep(Cell(p, range, 26), range, 26);
  }

  lemma NearCorner(p: real, k: nat)
    requires MERCATOR_RANGE.Inside(p) && k == Cell(p, MERCATOR_RANGE, 26) / 2
    ensures 2 * k + 1 < Pow2(26)
    ensures -Side(MERCATOR_RANGE, 26) <= Corner(2 * k + 1, MERCATOR_RANGE, 26) - p <= Side(MERCATOR_RANGE, 26)
  {
    hide Corner, Side, Cell, Pow2;
    var i := Cell(p, MERCATOR_RANGE, 26);
    OnGridAxis(p, MERCATOR_RANGE);
    NearEdges(p, MERCATOR_RANGE);
    Pow2Quarter(24);
    OddOfCouple(i, Pow2(24));
  }

  lemma OddOfCouple(i: nat, n: nat)
    requires i < 4 * n
    ensures 2 * (i / 2) + 1 < 4 * n
    ensures 2 * (i / 2) + 1 == i || 2 * (i / 2) + 1 == i + 1
  {
  }

  lemma SquareWithin(d: real, m: real)
    requires -m <= d <= m
    ensures d * d <= m * m
  {
    if d >= 0.0 {
      SquareMono(d, m);
    } else {
      SquareMono(-d, m);
    }
  }

  lemma WithinDisc(dx: real, dy: real, radius: real)
    requires radius >= MERCATOR_MAX
    requires -MERCATOR_MAX / 8.0 <= dx <= MERCATOR_MAX / 8.0
    requires -MERCATOR_MAX * 5.0 / 8.0 <= dy <= MERCATOR_MAX * 5.0 / 8.0
    ensures dx * dx + dy * dy <= radius * radius
  {
    SquareWithin(dx, MERCATOR_MAX / 8.0);
    SquareWithin(dy, MERCATOR_MAX * 5.0 / 8.0);
    SquareMono(MERCATOR_MAX, radius);
  }

  /** From the map's half width on, a stored member within the radius can be missed. */
  lemma LargeSearch(q: Query) returns (e: Entry)
    requires q.ct == Mercator && q.ct.InWorld(q.latitude, q.longitude) && q.radius >= MERCATOR_MAX
    ensures IsScore(e.score) && |e.member| == |q.centre| + 1
    ensures Keeps(q, PointOf(q.ct, e)) && !Scanned(Boxes(q.Areas()), e)
  {
    hide Areas, Boxes, Keeps, PointOf, Scanned, Pow2, MortonCode, Cell;
    var p := QuarterAway(q.latitude);
    var i := Cell(p, MERCATOR_RANGE, 26);
    e := Entry(q.centre + "'", FarScore(i / 2, q.longitude));
    NearCorner(p, i / 2);
    OnGridAxis(q.longitude, MERCATOR_RANGE);
    CellScore(Mercator, 2 * (i / 2) + 1, Cell(q.longitude, MERCATOR_RANGE, 26));
    FarKept(q, p, e);
    FarNotScanned(q, e.member, i);
  }

  lemma OwnKept(q: Query, n: Entry)
    requires q.ct == Mercator && q.ct.InWorld(q.latitude, q.longitude) && q.radius >= MERCATOR_MAX
    requires n.score == OwnScore(q) && |n.member| != |q.centre|
    ensures Keeps(q, PointOf(q.ct, n))
  {
    hide Corner, Side, Cell, OwnScore, ScoreLatitude, ScoreLongitude;
    OwnPosition(q);
    NearEdges(q.latitude, MERCATOR_RANGE);
    NearEdges(q.longitude, MERCATOR_RANGE);
    TinySide();
    WithinDisc(q.longitude - ScoreLongitude(q.ct, n.score), q.latitude - ScoreLatitude(q.ct, n.score), q.radius);
  }

  lemma FarKept(q: Query, p: real, e: Entry)
    requires q.ct == Mercator && q.ct.InWorld(q.latitude, q.longitude) && q.radius >= MERCATOR_MAX
    requires MERCATOR_RANGE.Inside(p) && (p == q.latitude + MERCATOR_MAX / 2.0 || p == q.latitude - MERCATOR_MAX / 2.0)
    requires e == Entry(q.centre + "'", FarScore(Cell(p, MERCATOR_RANGE, 26) / 2, q.longitude))
    ensures Keeps(q, PointOf(q.ct, e))
  {
    FarDistance(q, p, e.score);
  }

  lemma FarPosition(q: Query, p: real, score: nat)
    requires MERCATOR_RANGE.Inside(p) && MERCATOR_RANGE.Inside(q.longitude)
    requires score == FarScore(Cell(p, MERCATOR_RANGE, 26) / 2, q.longitude)
    ensures -Side(MERCATOR_RANGE, 26) <= ScoreLatitude(Mercator, score) - p <= Side(MERCATOR_RANGE, 26)
    ensures -Side(MERCATOR_RANGE, 26) <= ScoreLongitude(Mercator, score) - q.longitude <= Side(MERCATOR_RANGE, 26)
  {
    hide Corner, Side, Cell, MortonCode, ScoreLatitude, ScoreLongitude, Pow2;
    var k := Cell(p, MERCATOR_RANGE, 26) / 2;
    NearCorner(p, k);
    OnGridAxis(q.longitude, MERCATOR_RANGE);
    CellScore(Mercator, 2 * k + 1, Cell(q.longitude, MERCATOR_RANGE, 26));
    NearEdges(q.longitude, MERCATOR_RANGE);
  }

  lemma FarDistance(q: Query, p: real, score: nat)
    requires q.ct == Mercator && q.ct.InWorld(q.latitude, q.longitude) && q.radius >= MERCATOR_MAX
    requires MERCATOR_RANGE.Inside(p) && (p == q.latitude + MERCATOR_MAX / 2.0 || p == q.latitude - MERCATOR_MAX / 2.0)
    requires score == FarScore(Cell(p, MERCATOR_RANGE, 26) / 2, q.longitude)
    ensures InRadius(q, ScoreLatitude(q.ct, score), ScoreLongitude(q.ct, score))
  {
    hide Side, Cell, FarScore, ScoreLatitude, ScoreLongitude;
    FarPosition(q, p, score);
    TinySide();
    WithinDisc(q.longitude - ScoreLongitude(q.ct, score), q.latitude - ScoreLatitude(q.ct, score), q.radius);
  }

  lemma FarBoxMissed(q: Query, h: Hash, member: string, i: nat)
    requires q.ct == Mercator && q.ct.InWorld(q.latitude, q.longitude) && q.radius >= MERCATOR_MAX
    requires var c := Cell(q.latitude, MERCATOR_RANGE, 26); i == c + Pow2(24) || c == i + Pow2(24)
    requires h in Boxes(q.Areas()) && !HashIsZero(h)
    ensures !HasScore(h, Entry(member, FarScore(i / 2, q.longitude)))
  {
    hide Areas, Boxes, Cell, HasScore, MortonCode, Pow2, Around, Row;
    OnGridAxis(q.latitude, MERCATOR_RANGE);
    FarPairs(Cell(q.latitude, MERCATOR_RANGE, 26), i, 24);
    ScannedRows(q, h);
    QueryBoxes(q, h);
    OddRowMissed(h, member, i / 2, Cell(q.longitude, MERCATOR_RANGE, 26));
  }

  lemma FarNotScanned(q: Query, member: string, i: nat)
    requires q.ct == Mercator && q.ct.InWorld(q.latitude, q.longitude) && q.radius >= MERCATOR_MAX
    requires var c := Cell(q.latitude, MERCATOR_RANGE, 26); i == c + Pow2(24) || c == i + Pow2(24)
    ensures !Scanned(Boxes(q.Areas()), Entry(member, FarScore(i / 2, q.longitude)))
  {
    hide Areas, Boxes, Cell, HasScore, FarScore, Pow2;
    forall h | h in Boxes(q.Areas()) && !HashIsZero(h)
      ensures !HasScore(h, Entry(member, FarScore(i / 2, q.longitude)))
    {
      FarBoxMissed(q, h, member, i);
    }
    NotScanned(Boxes(q.Areas()), Entry(member, FarScore(i / 2, q.longitude)));
  }

  lemma NotScanned(hs: seq<Hash>, e: Entry)
    requires forall h | h in hs && !HashIsZero(h) :: !HasScore(h, e)
    ensures !Scanned(hs, e)
  {
  }

  /** For the Mercator type the runs of a search that get through all agree with the naive search
      exactly when the radius is below the map's half width. */
  lemma MercatorSearchExactly(q: Query)
    requires q.ct == Mercator && q.ct.InWorld(q.latitude, q.longitude) && q.radius >= 0.0
    ensures AlwaysRefines(q) <==> q.radius < MERCATOR_MAX
  {
    hide Search, NaiveSearch, RunDefined;
    if q.radius < MERCATOR_MAX {
      forall db, limit: nat | SortedSet(db) && OnGridScores(db) && limit >= |db| && RunDefined(q, db, limit)
        ensures SameFound(Search(q, db, limit), NaiveSearch(q, db))
      {
        MercatorSearch(q, db, limit);
      }
    } else {
      LargeIncomplete(q);
    }
  }

  lemma LargeIncomplete(q: Query)
    requires q.ct == Mercator && q.ct.InWorld(q.latitude, q.longitude) && q.radius >= MERCATOR_MAX
    ensures !AlwaysRefines(q)
  {
    hide Areas, Boxes, PointOf, Scanned, Keeps, Search, NaiveSearch, OwnScore, RunDefined;
    var e := LargeSearch(q);
    var n := Entry(q.centre + "''", OwnScore(q));
    OwnKept(q, n);
    OwnPosition(q);
    OwnScanned(q, n.member);
    MissedMember(q, n, e);
    assert OnGridScores(Couple(n, e));
  }
}
