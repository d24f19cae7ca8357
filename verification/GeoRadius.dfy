// geo/geohash_helper.c: the step for a radius, the bounding box, the nine cells a radius
// search scans, and which positions those cells reach.
module GeoRadius {
  import opened Arith
  import opened Morton
  import opened Geohash

  const M_PI: real := 3.14159265358979323846264338327950288
  const D_R: real := M_PI / 180.0
  const EARTH_RADIUS_IN_METERS: real := 6372797.560856

  /** The result of asin, which is not a number outside [-1, 1]. */
  datatype Angle = NaN | Angle(radians: real)

  /** The transcendental parts of the WGS84 code, taken as given:
      lonSpread is asin(sin(distance) / cos(latr)), haversine is geohashDistanceEarth. */
  datatype Trig = Trig(lonSpread: (real, real) -> Angle, haversine: (real, real, real, real) -> real)

  /** coord_type. */
  datatype CoordType = WGS84(trig: Trig) | Mercator {
    function LatRange(): Range { if WGS84? then WGS84_LAT else MERCATOR_RANGE }

    function LonRange(): Range { if WGS84? then WGS84_LON else MERCATOR_RANGE }

    /** A position the index can hold. */
    predicate InWorld(latitude: real, longitude: real) {
      LatRange().Inside(latitude) && LonRange().Inside(longitude)
    }

    predicate OnMap(latitude: real, longitude: real) {
      LatRange().Has(latitude) && LonRange().Has(longitude)
    }
  }

  // ---------- geohashEstimateStepsByRadius ----------

  lemma HalvedFloor(x: real)
    requires x >= 1.0
    ensures 0 <= (x / 2.0).Floor < x.Floor
  {
  }

  lemma DoublingProgress(r: real)
    requires 0.0 < r < MERCATOR_MAX
    ensures 0 <= (MERCATOR_MAX / (r * 2.0)).Floor < (MERCATOR_MAX / r).Floor
  {
    var x := MERCATOR_MAX / r;
    RealDivMul(MERCATOR_MAX, r);
    SignOfProduct(x - 1.0, r, MERCATOR_MAX - r);
    HalvedFloor(x);
    assert MERCATOR_MAX / (r * 2.0) == x / 2.0;
  }

  /** How often r must be doubled to reach MERCATOR_MAX. */
  function Doublings(r: real): nat
    requires r > 0.0
    decreases if r < MERCATOR_MAX then (MERCATOR_MAX / r).Floor else -1
  {
    if r >= MERCATOR_MAX then 0 else
      DoublingProgress(r);
      1 + Doublings(r * 2.0)
  }

  lemma {:induction false} DoublingsReach(r: real)
    requires r > 0.0
    ensures r * Pow2R(Doublings(r)) >= MERCATOR_MAX
    decreases Doublings(r)
  {
    if r < MERCATOR_MAX {
      DoublingsReach(r * 2.0);
      DoubledPower(r, Doublings(r * 2.0));
    }
  }

  /** Doublings(r) is the least k with r * 2^k >= MERCATOR_MAX. */
  lemma {:induction false} DoublingsLeast(r: real, k: nat)
    requires r > 0.0 && k < Doublings(r)
    ensures r * Pow2R(k) < MERCATOR_MAX
    decreases k
  {
    if k > 0 {
      DoublingsLeast(r * 2.0, k - 1);
      DoubledPower(r, k - 1);
    }
  }

  lemma DoubledPower(r: real, k: nat)
    ensures r * Pow2R(k + 1) == (r * 2.0) * Pow2R(k)
  {
  }

  /** uint8_t arithmetic. */
  function U8(n: nat): nat { n % 256 }

  /** What the C code returns, with its uint8_t counter. */
  function StepFor(r: real): (s: nat)
    ensures 1 <= s <= 26
  {
    if r <= 0.0 || r >= MERCATOR_MAX then 26 else
      var s := U8(Doublings(r));
      if s == 0 || s > 26 then 26 else s
  }

  method EstimateStepsByRadius(radius: real) returns (step: nat)
    ensures step == StepFor(radius)
  {
    var range := radius;
    step := 1;
    ghost var k := 0;
    while range > 0.0 && range < MERCATOR_MAX
      invariant radius > 0.0 ==> range > 0.0 && Doublings(radius) == k + Doublings(range)
      invariant radius <= 0.0 ==> range == radius && k == 0
      invariant step == U8(1 + k)
      decreases if range > 0.0 then Doublings(range) else 0
    {
      range := range * 2.0;
      CounterSteps(k);
      step := U8(step + 1);
      k := k + 1;
    }
    CounterWraps(k);
    step := U8(step + 255);
    if step == 0 {
      step := 26;
    }
    return if step > 26 then 26 else step;
  }

  lemma CounterWraps(k: nat)
    ensures U8(U8(1 + k) + 255) == U8(k)
  {
  }

  lemma CounterSteps(k: nat)
    ensures U8(U8(1 + k) + 1) == U8(1 + (k + 1))
  {
  }

  lemma StepAtMostDoublings(r: real)
    requires 0.0 < r < MERCATOR_MAX
    ensures 1 <= StepFor(r) <= Doublings(r)
  {
  }

  /** A cell of the chosen step is wider than the radius, whatever the uint8_t counter did. */
  lemma StepReach(r: real)
    requires 0.0 < r < MERCATOR_MAX
    ensures r < Side(MERCATOR_RANGE, StepFor(r))
  {
    var s := StepFor(r);
    StepAtMostDoublings(r);
    DoublingsLeast(r, s - 1);
    TwiceRight(r, Pow2R(s - 1));
    BelowQuotient(r, MERCATOR_RANGE.Width(), Pow2R(s));
  }

  lemma TwiceRight(r: real, p: real)
    ensures r * (2.0 * p) == 2.0 * (r * p)
  {
  }

  lemma BelowQuotient(r: real, w: real, p: real)
    requires p > 0.0 && r * p < w
    ensures r < w / p
  {
    RealDivMul(w, p);
    SignOfProduct(w / p - r, p, w - r * p);
  }

  /** The step is min(26, least k with r * 2^k >= MERCATOR_MAX) exactly when the counter's wrap does no harm. */
  lemma StepExact(r: real)
    requires 0.0 < r < MERCATOR_MAX
    ensures var k := Doublings(r);
      StepFor(r) == (if k < 26 then k else 26) <==> k <= 255 || k % 256 == 0 || k % 256 >= 26
  {
  }

  lemma {:induction false} DoublingsOfPower(k: nat)
    ensures Doublings(MERCATOR_MAX / Pow2R(k)) == k
  {
    if k > 0 {
      DoublingsOfPower(k - 1);
      HalfQuotient(MERCATOR_MAX, Pow2R(k - 1));
      PositiveQuotient(MERCATOR_MAX, Pow2R(k));
      SmallPart(Pow2R(k));
    }
  }

  lemma SmallPart(p: real)
    requires p >= 2.0
    ensures 0.0 < MERCATOR_MAX / p < MERCATOR_MAX
  {
    PositiveQuotient(MERCATOR_MAX, p);
    RealDivMul(MERCATOR_MAX, p);
    SignOfProduct(MERCATOR_MAX - MERCATOR_MAX / p, p, MERCATOR_MAX * p - MERCATOR_MAX);
  }

  /** A radius whose 257 doublings the counter takes for one: the coarsest step instead of the finest. */
  lemma CounterWrapped()
    ensures var r := MERCATOR_MAX / Pow2R(257);
      0.0 < r < MERCATOR_MAX && Doublings(r) == 257 && StepFor(r) == 1
  {
    hide Pow2R;
    DoublingsOfPower(257);
    assert Pow2R(257) >= 2.0 by { Pow2RDouble(256); }
    SmallPart(Pow2R(257));
  }

  /** Where the steps 2, 1 and 26 begin. */
  lemma StepEdges()
    ensures StepFor(10018863.18) == 2 && StepFor(10018863.185) == 1
    ensures StepFor(20037726.36) == 1 && StepFor(20037726.37) == 26
    ensures StepFor(0.0) == 26
  {
    assert Doublings(20037726.37) == 0;
    assert Doublings(20037726.36) == 1 && Doublings(10018863.185) == 1;
    assert Doublings(10018863.18) == 2;
  }

  lemma Pow2RDouble(k: nat)
    ensures Pow2R(k + 1) == 2.0 * Pow2R(k)
  {
  }

  // ---------- geohashGetAreasByRadius ----------

  datatype Box = Box(minLat: real, minLon: real, maxLat: real, maxLon: real) {
    predicate Has(latitude: real, longitude: real) {
      minLat <= latitude <= maxLat && minLon <= longitude <= maxLon
    }
  }

  /** The bounds a NaN longitude amounts to: every comparison with them is false, as with NaN. */
  const NO_WEST: real := WGS84_LON.min - WGS84_LON.Width()
  const NO_EAST: real := WGS84_LON.max + WGS84_LON.Width()

  /** geohashBoundingBox. */
  function Wgs84Box(trig: Trig, latitude: real, longitude: real, radius: real): Box {
    var latr := latitude * D_R;
    var lonr := longitude * D_R;
    var distance := radius / EARTH_RADIUS_IN_METERS;
    var south, north := (latr - distance) / D_R, (latr + distance) / D_R;
    match trig.lonSpread(distance, latr)
    case NaN => Box(south, NO_WEST, north, NO_EAST)
    case Angle(spread) => Box(south, (lonr - spread) / D_R, north, (lonr + spread) / D_R)
  }

  /** geohashBoundingBox for WGS84, and the plain square for the Mercator type. */
  function BoundingBox(ct: CoordType, latitude: real, longitude: real, radius: real): Box {
    match ct
    case WGS84(trig) => Wgs84Box(trig, latitude, longitude, radius)
    case Mercator => Box(latitude - radius, longitude - radius, latitude + radius, longitude + radius)
  }

  /** GeoHashRadius. */
  datatype GeoHashRadius = GeoHashRadius(hash: Hash, area: Area, neighbors: Neighbors)

  const ZERO_HASH := Hash(0, 0)

  function CentreHash(ct: CoordType, latitude: real, longitude: real, step: nat): (h: Hash)
    requires 1 <= step <= 26
    ensures h.step == step
  {
    if ct.OnMap(latitude, longitude) then Encoded(ct.LatRange(), ct.LonRange(), latitude, longitude, step)
    else Hash(0, step)
  }

  /** The neighbours with the given sides zeroed. */
  function Pruned(n: Neighbors, noNorth: bool, noSouth: bool, noEast: bool, noWest: bool): Neighbors {
    Neighbors(
      if noNorth then ZERO_HASH else n.north,
      if noEast then ZERO_HASH else n.east,
      if noWest then ZERO_HASH else n.west,
      if noSouth then ZERO_HASH else n.south,
      if noNorth || noEast then ZERO_HASH else n.northEast,
      if noSouth || noEast then ZERO_HASH else n.southEast,
      if noNorth || noWest then ZERO_HASH else n.northWest,
      if noSouth || noWest then ZERO_HASH else n.southWest)
  }

  /** The centre's hash and cell, and the neighbours the box can reach. */
  function CellsAround(ct: CoordType, hash: Hash, box: Box): GeoHashRadius
    requires 1 <= hash.step <= 32
  {
    var area := Decoded(ct.LatRange(), ct.LonRange(), hash);
    GeoHashRadius(hash, area, Pruned(NeighborsOf(hash),
                                     area.latitude.max > box.maxLat, area.latitude.min < box.minLat,
                                     area.longitude.max > box.maxLon, area.longitude.min < box.minLon))
  }

  function Areas(ct: CoordType, latitude: real, longitude: real, radius: real): (g: GeoHashRadius)
    ensures g.hash.step == StepFor(radius)
  {
    CellsAround(ct, CentreHash(ct, latitude, longitude, StepFor(radius)), BoundingBox(ct, latitude, longitude, radius))
  }

  /** geohashGetAreasByRadius. */
  method GetAreasByRadius(ct: CoordType, latitude: real, longitude: real, radius: real) returns (g: GeoHashRadius)
    ensures g == Areas(ct, latitude, longitude, radius)
  {
    var box := BoundingBox(ct, latitude, longitude, radius);
    var steps := EstimateStepsByRadius(radius);
    var ok, hash := Encode(ct.LatRange(), ct.LonRange(), latitude, longitude, steps, ZERO_HASH);
    g := PruneNeighbors(ct, hash, box);
  }

  method PruneNeighbors(ct: CoordType, hash: Hash, box: Box) returns (g: GeoHashRadius)
    requires 1 <= hash.step <= 32
    ensures g == CellsAround(ct, hash, box)
  {
    hide NeighborsOf, Decoded;
    var neighbors := GetNeighbors(hash);
    var ok, area := Decode(ct.LatRange(), ct.LonRange(), hash, Area(ZERO_HASH, Range(0.0, 0.0), Range(0.0, 0.0)));
    if area.latitude.min < box.minLat {
      neighbors := neighbors.(south := ZERO_HASH, southWest := ZERO_HASH, southEast := ZERO_HASH);
    }
    if area.latitude.max > box.maxLat {
      neighbors := neighbors.(north := ZERO_HASH, northEast := ZERO_HASH, northWest := ZERO_HASH);
    }
    if area.longitude.min < box.minLon {
      neighbors := neighbors.(west := ZERO_HASH, southWest := ZERO_HASH, northWest := ZERO_HASH);
    }
    if area.longitude.max > box.maxLon {
      neighbors := neighbors.(east := ZERO_HASH, southEast := ZERO_HASH, northEast := ZERO_HASH);
    }
    g := GeoHashRadius(hash, area, neighbors);
  }

  lemma SideInRange(range: Range, step: nat)
    requires range.Proper()
    ensures 0.0 < Side(range, step) <= range.Width()
  {
    CornerStep(0, range, step);
    RealDivMul(range.Width(), Pow2R(step));
    RealMulMono(1.0, Pow2R(step), Side(range, step));
  }

  /** Where the bounding box has no longitudes, neither the east nor the west is pruned. */
  lemma NaNPrunesNothing(trig: Trig, latitude: real, longitude: real, radius: real)
    requires trig.lonSpread(radius / EARTH_RADIUS_IN_METERS, latitude * D_R) == NaN
    ensures var area := Areas(WGS84(trig), latitude, longitude, radius).area;
      var box := BoundingBox(WGS84(trig), latitude, longitude, radius);
      !(area.longitude.min < box.minLon) && !(area.longitude.max > box.maxLon)
  {
    hide NeighborsOf, Pruned, Corner, Side, StepFor, Next32, Index;
    var step := StepFor(radius);
    SideInRange(WGS84_LON, step);
    if WGS84(trig).OnMap(latitude, longitude) {
      AxisRoundTrip(longitude, WGS84_LON, step);
      CornerStep(Cell(longitude, WGS84_LON, step), WGS84_LON, step);
    } else {
      CornerOfZero(step);
    }
  }

  lemma CornerOfZero(step: nat)
    requires step <= 30
    ensures Col(0) == 0 && Next32(0) == 1
    ensures Corner(0, WGS84_LON, step) == WGS84_LON.min
    ensures Corner(1, WGS84_LON, step) == WGS84_LON.min + Side(WGS84_LON, step)
  {
    LastCorner(WGS84_LON, step);
    CornerStep(0, WGS84_LON, step);
    NextFits(0, step);
    CodeOfRowCol(0);
    CodeIsZero(Row(0), Col(0));
  }

  // ---------- the scanned cells ----------

  /** The nine hashes in the order ssdb_geo_members scans them. */
  function Boxes(g: GeoHashRadius): (s: seq<Hash>)
    ensures |s| == 9
  {
    var n := g.neighbors;
    [g.hash, n.north, n.south, n.east, n.west, n.northEast, n.northWest, n.southEast, n.southWest]
  }

  /** The hash is not zeroed and names the cell (row, col). */
  predicate Names(h: Hash, row: nat, col: nat) {
    !HashIsZero(h) && Row(h.bits) == row && Col(h.bits) == col
  }

  /** Some scanned hash is the cell (row, col). */
  ghost predicate Covered(g: GeoHashRadius, row: nat, col: nat) {
    exists k :: 0 <= k < 9 && Names(Boxes(g)[k], row, col)
  }

  lemma CoveredNine(g: GeoHashRadius, row: nat, col: nat)
    ensures var n := g.neighbors;
      Covered(g, row, col) <==>
        || Names(g.hash, row, col) || Names(n.north, row, col) || Names(n.south, row, col)
        || Names(n.east, row, col) || Names(n.west, row, col) || Names(n.northEast, row, col)
        || Names(n.northWest, row, col) || Names(n.southEast, row, col) || Names(n.southWest, row, col)
  {
    var b := Boxes(g);
    var n := g.neighbors;
    assert b[0] == g.hash && b[1] == n.north && b[2] == n.south && b[3] == n.east && b[4] == n.west;
    assert b[5] == n.northEast && b[6] == n.northWest && b[7] == n.southEast && b[8] == n.southWest;
  }

  lemma ShiftNames(h: Hash, dx: int, dy: int, row: nat, col: nat)
    requires 1 <= h.step <= 32
    ensures Names(Shifted(h, dx, dy), row, col) <==>
      row == Around(Row(h.bits), dy, h.step) && col == Around(Col(h.bits), dx, h.step)
  {
    ShiftedCell(h, dx, dy);
  }

  /** Index i of one axis is scanned: the centre's own, the next up unless pruned, the next down unless pruned. */
  predicate AxisKept(c: nat, step: nat, noUp: bool, noDown: bool, i: nat) {
    i == c || (!noUp && i == Around(c, 1, step)) || (!noDown && i == Around(c, -1, step))
  }

  lemma PrunedIsProduct(h: Hash, a: Area, noNorth: bool, noSouth: bool, noEast: bool, noWest: bool, row: nat, col: nat)
    requires 1 <= h.step <= 32
    ensures Covered(GeoHashRadius(h, a, Pruned(NeighborsOf(h), noNorth, noSouth, noEast, noWest)), row, col)
       <==> AxisKept(Row(h.bits), h.step, noNorth, noSouth, row) && AxisKept(Col(h.bits), h.step, noEast, noWest, col)
  {
    CoveredNine(GeoHashRadius(h, a, Pruned(NeighborsOf(h), noNorth, noSouth, noEast, noWest)), row, col);
    assert !Names(ZERO_HASH, row, col);
    ShiftNames(h, 0, 1, row, col);
    ShiftNames(h, 0, -1, row, col);
    ShiftNames(h, 1, 0, row, col);
    ShiftNames(h, -1, 0, row, col);
    ShiftNames(h, 1, 1, row, col);
    ShiftNames(h, -1, 1, row, col);
    ShiftNames(h, 1, -1, row, col);
    ShiftNames(h, -1, -1, row, col);
  }

  /** What the pruning keeps of one axis, in terms of the box [lo, hi]. */
  predicate AxisKeeps(c: nat, range: Range, step: nat, lo: real, hi: real, i: nat) {
    AxisKept(c, step, Corner(Next32(c), range, step) > hi, Corner(c, range, step) < lo, i)
  }

  /** The scanned cells are the product of the scanned rows and the scanned columns. */
  lemma CoveredIsProduct(ct: CoordType, h: Hash, b: Box, row: nat, col: nat)
    requires 1 <= h.step <= 32
    ensures Covered(CellsAround(ct, h, b), row, col) <==>
      && AxisKeeps(Row(h.bits), ct.LatRange(), h.step, b.minLat, b.maxLat, row)
      && AxisKeeps(Col(h.bits), ct.LonRange(), h.step, b.minLon, b.maxLon, col)
  {
    hide Covered, Pruned, NeighborsOf, AxisKept, Corner, Next32, Row, Col;
    var a := Decoded(ct.LatRange(), ct.LonRange(), h);
    PrunedIsProduct(h, a, a.latitude.max > b.maxLat, a.latitude.min < b.minLat,
                    a.longitude.max > b.maxLon, a.longitude.min < b.minLon, row, col);
  }

  // ---------- one axis: what the kept indices reach ----------

  lemma NextCorner(v: real, range: Range, step: nat)
    requires range.Proper() && range.Has(v) && step <= 30
    ensures Next32(Cell(v, range, step)) == Cell(v, range, step) + 1
  {
    AxisRoundTrip(v, range, step);
  }

  lemma CellMono(p: real, q: real, range: Range, step: nat)
    requires range.Proper() && range.Has(p) && range.Has(q) && p <= q
    ensures Cell(p, range, step) <= Cell(q, range, step)
  {
    var i, j := Cell(p, range, step), Cell(q, range, step);
    IndexIsCell(p, range, step, i);
    IndexIsCell(q, range, step, j);
    if j < i {
      CornerMono(j + 1, i, range, step);
    }
  }

  /** A position of the box in the centre's cell or the next one is kept. */
  lemma AxisNear(v: real, p: real, range: Range, step: nat, lo: real, hi: real)
    requires range.Proper() && range.Has(v) && range.Inside(p) && 1 <= step <= 30 && lo <= p <= hi
    requires Cell(v, range, step) - 1 <= Cell(p, range, step) <= Cell(v, range, step) + 1
    ensures AxisKeeps(Cell(v, range, step), range, step, lo, hi, Cell(p, range, step))
  {
    var c, i := Cell(v, range, step), Cell(p, range, step);
    NextCorner(v, range, step);
    IndexIsCell(p, range, step, i);
    IndexBounds(p, range, step);
    QuotientUnique(i, Pow2(step), 0, i);
  }

  /** No other index is kept. */
  lemma AxisFar(c: nat, i: nat, range: Range, step: nat, lo: real, hi: real)
    requires 1 <= step && c <= Pow2(step) && i < Pow2(step)
    requires i == c + 2 || i == c - 2
    ensures !AxisKeeps(c, range, step, lo, hi, i)
  {
    assert Pow2(step) == 2 * Pow2(step - 1);
    if c < Pow2(step) {
      AroundCases(c, 1, step);
      AroundCases(c, -1, step);
    } else {
      QuotientUnique(c + 1, c, 1, 1);
      QuotientUnique(c - 1, c, 0, c - 1);
    }
  }

  /** The cell of the box's lower (upper) end, clipped to the world. */
  function LowCell(lo: real, range: Range, step: nat): nat
    requires range.Proper() && lo <= range.max
  {
    if lo < range.min then 0 else Cell(lo, range, step)
  }

  function HighCell(hi: real, range: Range, step: nat): nat
    requires range.Proper() && range.min <= hi
  {
    if hi >= range.max then Pow2(step) - 1 else Cell(hi, range, step)
  }

  /** The box [lo, hi] around v stays within one cell of v's own: what a caller can check beforehand. */
  predicate Reaches(v: real, range: Range, step: nat, lo: real, hi: real)
    requires range.Proper() && range.Has(v) && lo <= v <= hi
  {
    Cell(v, range, step) - 1 <= LowCell(lo, range, step) && HighCell(hi, range, step) <= Cell(v, range, step) + 1
  }

  /** Every position of the box on this axis is kept. */
  ghost predicate AxisCovered(v: real, range: Range, step: nat, lo: real, hi: real)
    requires range.Proper() && range.Has(v)
  {
    forall p | range.Inside(p) && lo <= p <= hi ::
      AxisKeeps(Cell(v, range, step), range, step, lo, hi, Cell(p, range, step))
  }

  lemma ReachesNear(v: real, p: real, range: Range, step: nat, lo: real, hi: real)
    requires range.Proper() && range.Has(v) && lo <= v <= hi && Reaches(v, range, step, lo, hi)
    requires range.Inside(p) && lo <= p <= hi
    ensures Cell(v, range, step) - 1 <= Cell(p, range, step) <= Cell(v, range, step) + 1
  {
    IndexBounds(p, range, step);
    if range.min <= lo {
      CellMono(lo, p, range, step);
    }
    if hi < range.max {
      CellMono(p, hi, range, step);
    }
  }

  /** A box that reaches further up than the next cell holds a position that is not kept. */
  lemma MissedAbove(v: real, range: Range, step: nat, lo: real, hi: real) returns (p: real)
    requires range.Proper() && range.Has(v) && lo <= v <= hi && 1 <= step <= 30
    requires HighCell(hi, range, step) > Cell(v, range, step) + 1
    ensures range.Inside(p) && lo <= p <= hi
    ensures !AxisKeeps(Cell(v, range, step), range, step, lo, hi, Cell(p, range, step))
  {
    var c := Cell(v, range, step);
    p := Corner(c + 2, range, step);
    IndexBounds(v, range, step);
    IndexIsCell(v, range, step, c);
    CornerMono(c + 1, c + 2, range, step);
    if hi < range.max {
      var j := Cell(hi, range, step);
      IndexIsCell(hi, range, step, j);
      IndexBounds(hi, range, step);
      CornerMono(c + 2, j, range, step);
    }
    CornerStep(c + 2, range, step);
    CornerMono(c + 3, Pow2(step), range, step);
    LastCorner(range, step);
    IndexOfCorner(c + 2, range, step);
    AxisFar(c, c + 2, range, step, lo, hi);
  }

  lemma MissedBelow(v: real, range: Range, step: nat, lo: real, hi: real) returns (p: real)
    requires range.Proper() && range.Has(v) && lo <= v <= hi && 1 <= step <= 30
    requires LowCell(lo, range, step) < Cell(v, range, step) - 1
    ensures range.Inside(p) && lo <= p <= hi
    ensures !AxisKeeps(Cell(v, range, step), range, step, lo, hi, Cell(p, range, step))
  {
    var c := Cell(v, range, step);
    var q := Corner(c - 2, range, step);
    IndexBounds(v, range, step);
    IndexIsCell(v, range, step, c);
    CornerStep(c - 2, range, step);
    CornerMono(c - 1, c, range, step);
    CornerMono(0, c - 2, range, step);
    LastCorner(range, step);
    p := if lo <= q then q else lo;
    if lo > q {
      IndexBounds(lo, range, step);
      var j := Cell(lo, range, step);
      IndexIsCell(lo, range, step, j);
      CellMono(q, lo, range, step);
    }
    IndexOfCorner(c - 2, range, step);
    assert Cell(p, range, step) == c - 2;
    AxisFar(c, c - 2, range, step, lo, hi);
  }

  /** One axis of the box is covered exactly when it stays within one cell of the centre's. */
  lemma AxisCoverage(v: real, range: Range, step: nat, lo: real, hi: real)
    requires range.Proper() && range.Has(v) && lo <= v <= hi && 1 <= step <= 30
    ensures AxisCovered(v, range, step, lo, hi) <==> Reaches(v, range, step, lo, hi)
  {
    if Reaches(v, range, step, lo, hi) {
      forall p | range.Inside(p) && lo <= p <= hi
        ensures AxisKeeps(Cell(v, range, step), range, step, lo, hi, Cell(p, range, step))
      {
        ReachesNear(v, p, range, step, lo, hi);
        AxisNear(v, p, range, step, lo, hi);
      }
    } else if HighCell(hi, range, step) > Cell(v, range, step) + 1 {
      var p := MissedAbove(v, range, step, lo, hi);
    } else {
      var p := MissedBelow(v, range, step, lo, hi);
    }
  }
}
