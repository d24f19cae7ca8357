// geo/geohash.c: encoding a position as the Morton code of its grid cell, decoding a code
// to its cell, and the eight neighbouring cells. Doubles are exact reals.
module Geohash {
  import opened Arith
  import opened Words
  import opened Morton

  /** GeoHashBits. */
  datatype Hash = Hash(bits: bv64, step: nat)

  /** GeoHashRange. */
  datatype Range = Range(max: real, min: real) {
    predicate IsZero() { max == 0.0 && min == 0.0 }

    predicate Proper() { min < max }

    predicate Has(v: real) { min <= v <= max }

    /** The half-open range: every coordinate except the maximum itself. */
    predicate Inside(v: real) { min <= v < max }

    function Width(): real { max - min }
  }

  /** GeoHashArea. */
  datatype Area = Area(hash: Hash, latitude: Range, longitude: Range)

  const GEO_STEP_MAX: nat := 26

  const WGS84_LAT := Range(85.05112878, -85.05112878)
  const WGS84_LON := Range(180.0, -180.0)
  const MERCATOR_MAX: real := 20037726.37
  const MERCATOR_RANGE := Range(20037726.37, -20037726.37)

  // ---------- one axis ----------

  /** The fixed-point cell number of a coordinate: (uint32_t)(offset * (1 << step)). */
  function Index(v: real, range: Range, step: nat): int
    requires range.Proper()
  {
    Fixed(Offset(v, range.min, range.Width()), step)
  }

  /** `offset *= (1 << step)`, truncated. */
  function Fixed(offset: real, step: nat): int {
    (offset * Pow2R(step)).Floor
  }

  /** The position of a coordinate in its range, from 0 to 1. */
  function Offset(v: real, lo: real, width: real): real
    requires width != 0.0
  {
    (v - lo) / width
  }

  /** The lower edge of cell i. */
  function Corner(i: nat, range: Range, step: nat): real
  {
    Edge(i, range.min, range.Width(), Pow2R(step))
  }

  function Edge(i: nat, lo: real, scale: real, cells: real): real
    requires cells != 0.0
  {
    lo + i as real / cells * scale
  }

  /** The side of one cell. */
  function Side(range: Range, step: nat): real {
    range.Width() / Pow2R(step)
  }

  lemma CornerStep(i: nat, range: Range, step: nat)
    requires range.Proper()
    ensures Corner(i, range, step) == range.min + i as real * Side(range, step)
    ensures Corner(i + 1, range, step) == Corner(i, range, step) + Side(range, step)
    ensures Side(range, step) > 0.0
  {
    QuotientProduct(i as real, Pow2R(step), range.Width());
    QuotientProduct((i + 1) as real, Pow2R(step), range.Width());
    PositiveQuotient(range.Width(), Pow2R(step));
    assert (i + 1) as real * Side(range, step) == i as real * Side(range, step) + Side(range, step);
  }

  lemma QuotientProduct(a: real, p: real, w: real)
    requires p > 0.0
    ensures a / p * w == a * (w / p)
  {
  }

  lemma PositiveQuotient(w: real, p: real)
    requires w > 0.0 && p > 0.0
    ensures w / p > 0.0
  {
  }

  lemma OffsetScaled(d: real, w: real, p: real)
    requires w > 0.0 && p > 0.0
    ensures d / w * p == d / (w / p) && w / p > 0.0
  {
    PositiveQuotient(w, p);
    var side := w / p;
    RealDivMul(w, p);
    assert side * p == w;
    var x := d / side;
    RealDivMul(d, side);
    assert d == x * side;
    ScaledQuotient(x, side, p, w);
  }

  lemma ScaledQuotient(x: real, side: real, p: real, w: real)
    requires side * p == w && w > 0.0 && p > 0.0
    ensures x * side / w * p == x
  {
    assert x * side / w == x * (side / w);
    assert side / w * p == 1.0;
  }

  /** Cell i is exactly the coordinates whose index is i. */
  lemma IndexIsCell(v: real, range: Range, step: nat, i: nat)
    requires range.Proper()
    ensures Index(v, range, step) == i <==> Corner(i, range, step) <= v < Corner(i + 1, range, step)
  {
    hide Index, Corner, Side;
    CornerStep(i, range, step);
    IndexIsQuotient(v, range, step);
    GridCell(v - range.min, Side(range, step), i);
  }

  lemma IndexIsQuotient(v: real, range: Range, step: nat)
    requires range.Proper()
    ensures Side(range, step) > 0.0
    ensures Index(v, range, step) == ((v - range.min) / Side(range, step)).Floor
  {
    OffsetScaled(v - range.min, range.Width(), Pow2R(step));
  }

  lemma GridCell(d: real, side: real, i: int)
    requires side > 0.0
    ensures (d / side).Floor == i <==> i as real * side <= d < i as real * side + side
  {
    var x := d / side;
    RealDivMul(d, side);
    assert x * side == d;
    SignOfProduct(x - i as real, side, d - i as real * side);
    SignOfProduct(i as real + 1.0 - x, side, i as real * side + side - d);
    assert x.Floor == i <==> i as real <= x < i as real + 1.0;
  }

  lemma IndexOfCorner(i: nat, range: Range, step: nat)
    requires range.Proper()
    ensures Index(Corner(i, range, step), range, step) == i
  {
    CornerStep(i, range, step);
    IndexIsCell(Corner(i, range, step), range, step, i);
  }

  lemma LastCorner(range: Range, step: nat)
    requires range.Proper()
    ensures Corner(Pow2(step), range, step) == range.max
    ensures Corner(0, range, step) == range.min
  {
    Pow2RIsPow2(step);
    Quotients(Pow2R(step), range.Width());
  }

  lemma Quotients(p: real, w: real)
    requires p > 0.0
    ensures p / p * w == w && 0.0 / p * w == 0.0
  {
  }

  lemma HalfQuotient(w: real, p: real)
    requires p > 0.0
    ensures w / p == 2.0 * (w / (2.0 * p))
  {
  }

  lemma CornerMono(i: nat, j: nat, range: Range, step: nat)
    requires range.Proper() && i <= j
    ensures Corner(i, range, step) <= Corner(j, range, step)
  {
    CornerStep(i, range, step);
    CornerStep(j, range, step);
    RealMulMono(i as real, j as real, Side(range, step));
  }

  /** Indices run from 0 to 2^step, and only the maximum itself reaches 2^step. */
  lemma IndexBounds(v: real, range: Range, step: nat)
    requires range.Proper() && range.Has(v)
    ensures 0 <= Index(v, range, step) <= Pow2(step)
    ensures Index(v, range, step) == Pow2(step) <==> v == range.max
  {
    IndexNonNegative(v, range, step);
    var i: nat := Index(v, range, step);
    IndexIsCell(v, range, step, i);
    LastCorner(range, step);
    if i > Pow2(step) {
      CornerMono(Pow2(step), i, range, step);
      CornerStep(i - 1, range, step);
      CornerMono(Pow2(step), i - 1, range, step);
    }
    if i < Pow2(step) {
      CornerMono(i + 1, Pow2(step), range, step);
    }
    if v == range.max {
      IndexOfCorner(Pow2(step), range, step);
    }
  }

  lemma IndexNonNegative(v: real, range: Range, step: nat)
    requires range.Proper() && range.Has(v)
    ensures Index(v, range, step) >= 0
  {
    var t := (v - range.min) / range.Width();
    RealDivMul(v - range.min, range.Width());
    if t < 0.0 {
      RealMulLess(t, 0.0, range.Width());
    }
    RealMulMono(0.0, t, Pow2R(step));
  }

  /** A coordinate as the cell number it encodes to. */
  function Cell(v: real, range: Range, step: nat): nat
    requires range.Proper() && range.Has(v)
  {
    IndexNonNegative(v, range, step);
    Index(v, range, step)
  }

  lemma TwiceProduct(a: real, b: real)
    ensures (2.0 * a) * b == a * (2.0 * b)
  {
  }

  /** Halving the number of cells halves the cell number. */
  lemma CellCoarser(v: real, range: Range, step: nat)
    requires range.Proper() && range.Has(v)
    ensures Cell(v, range, step) == Cell(v, range, step + 1) / 2
  {
    hide Offset, Fixed;
    var i := Cell(v, range, step + 1);
    var q := i / 2;
    IndexIsCell(v, range, step + 1, i);
    CornerStep(i, range, step + 1);
    CornerStep(q, range, step);
    CornerStep(2 * q, range, step + 1);
    CornerStep(2 * q + 1, range, step + 1);
    HalfQuotient(range.Width(), Pow2R(step));
    TwiceProduct(q as real, Side(range, step + 1));
    IndexIsCell(v, range, step, q);
  }

  /** Encoding at a coarser step is the fine cell number shifted right. */
  lemma {:induction false} CellShift(v: real, range: Range, step: nat, k: nat)
    requires range.Proper() && range.Has(v)
    ensures Cell(v, range, step) == Drop(Cell(v, range, step + k), k)
    decreases k
  {
    if k > 0 {
      CellShift(v, range, step + 1, k - 1);
      CellCoarser(v, range, step);
    }
  }

  // ---------- encoding and decoding ----------

  predicate HashIsZero(h: Hash) { h.bits == 0 && h.step == 0 }

  /** The code of a position: latitude cell in the even bits, longitude cell in the odd ones. */
  function Encoded(latRange: Range, lonRange: Range, latitude: real, longitude: real, step: nat): (h: Hash)
    requires latRange.Proper() && lonRange.Proper() && latRange.Has(latitude) && lonRange.Has(longitude)
    requires 1 <= step <= 30
    ensures h.step == step
    ensures Row(h.bits) == Cell(latitude, latRange, step) && Col(h.bits) == Cell(longitude, lonRange, step)
    ensures Val(h.bits) == MortonCode(Cell(latitude, latRange, step), Cell(longitude, lonRange, step))
  {
    CellIs32(latitude, latRange, step);
    CellIs32(longitude, lonRange, step);
    var i, j := Cell(latitude, latRange, step), Cell(longitude, lonRange, step);
    RowColOfInterleave(i, j);
    Hash(Interleave64(ToWord(i), ToWord(j)), step)
  }

  lemma CellIs32(v: real, range: Range, step: nat)
    requires range.Proper() && range.Has(v) && step <= 30
    ensures Cell(v, range, step) < Pow2(32)
  {
    IndexBounds(v, range, step);
    Pow2Mono(step + 1, 32);
  }

  /** The fixed-point conversion of one coordinate in geohashEncode. */
  method FixedPoint(v: real, range: Range, step: nat) returns (i: nat)
    requires range.Proper() && range.Has(v) && step <= 30
    ensures i == Cell(v, range, step) && i < Pow2(32)
  {
    IndexNonNegative(v, range, step);
    CellIs32(v, range, step);
    hide Offset, Fixed, Pow2;
    var offset := Offset(v, range.min, range.Width());
    i := Fixed(offset, step);
  }

  predicate Encodable(latRange: Range, longRange: Range, step: nat) {
    1 <= step <= 32 && !latRange.IsZero() && !longRange.IsZero()
  }

  /** The checks of geohashEncode pass. */
  predicate Encodes(latRange: Range, longRange: Range, latitude: real, longitude: real, step: nat) {
    Encodable(latRange, longRange, step) && latRange.Has(latitude) && longRange.Has(longitude)
  }

  /** geohashEncode; `before` is what *hash held. Once the checks pass, a range of no width would be
      divided by, and the shift 1 << step is an int shift, undefined for 31 and 32. */
  method Encode(latRange: Range, longRange: Range, latitude: real, longitude: real, step: nat, before: Hash)
    returns (ok: bool, hash: Hash)
    requires Encodes(latRange, longRange, latitude, longitude, step) ==>
      latRange.Proper() && longRange.Proper() && step <= 30
    ensures ok <==> Encodes(latRange, longRange, latitude, longitude, step)
    ensures ok ==> hash == Encoded(latRange, longRange, latitude, longitude, step)
    ensures !ok ==> hash == (if Encodable(latRange, longRange, step) then Hash(0, step) else before)
  {
    hash := before;
    if step > 32 || step == 0 || latRange.IsZero() || longRange.IsZero() {
      return false, hash;
    }
    hash := hash.(bits := 0, step := step);
    if latitude < latRange.min || latitude > latRange.max || longitude < longRange.min || longitude > longRange.max {
      return false, hash;
    }
    var i := FixedPoint(latitude, latRange, step);
    var j := FixedPoint(longitude, longRange, step);
    RowColOfInterleave(i, j);
    hash := hash.(bits := Interleave64(ToWord(i), ToWord(j)));
    ok := true;
  }

  /** Unsigned 32-bit `i + 1`. */
  function Next32(i: nat): nat { (i + 1) % Pow2(32) }

  /** The cell of a code, as geohashDecode writes it. */
  function Decoded(latRange: Range, longRange: Range, hash: Hash): Area {
    Area(hash,
         Range(Corner(Next32(Row(hash.bits)), latRange, hash.step), Corner(Row(hash.bits), latRange, hash.step)),
         Range(Corner(Next32(Col(hash.bits)), longRange, hash.step), Corner(Col(hash.bits), longRange, hash.step)))
  }

  /** geohashDecode. */
  method Decode(latRange: Range, longRange: Range, hash: Hash, before: Area) returns (ok: bool, area: Area)
    ensures ok <==> !HashIsZero(hash) && !latRange.IsZero() && !longRange.IsZero()
    ensures area == if ok then Decoded(latRange, longRange, hash) else before
  {
    if HashIsZero(hash) || latRange.IsZero() || longRange.IsZero() {
      return false, before;
    }
    var latScale := latRange.max - latRange.min;
    var longScale := longRange.max - longRange.min;
    var i := Row(hash.bits);
    var j := Col(hash.bits);
    var p := Pow2R(hash.step);
    area := Area(hash,
                 Range(Edge(Next32(i), latRange.min, latScale, p), Edge(i, latRange.min, latScale, p)),
                 Range(Edge(Next32(j), longRange.min, longScale, p), Edge(j, longRange.min, longScale, p)));
    ok := true;
  }

  /** Encoding then decoding: the decoded cell holds the position, its minimum corner is off by
      less than one cell side, and encoding that corner gives back the same code. */
  lemma EncodeDecode(latRange: Range, lonRange: Range, latitude: real, longitude: real, step: nat)
    requires latRange.Proper() && lonRange.Proper() && latRange.Has(latitude) && lonRange.Has(longitude)
    requires 1 <= step <= 30
    ensures var h := Encoded(latRange, lonRange, latitude, longitude, step);
      var a := Decoded(latRange, lonRange, h);
      && a.latitude.Inside(latitude) && a.longitude.Inside(longitude)
      && latitude - a.latitude.min < Side(latRange, step) && longitude - a.longitude.min < Side(lonRange, step)
      && latRange.Has(a.latitude.min) && lonRange.Has(a.longitude.min)
      && Encoded(latRange, lonRange, a.latitude.min, a.longitude.min, step) == h
  {
    var h := Encoded(latRange, lonRange, latitude, longitude, step);
    AxisRoundTrip(latitude, latRange, step);
    AxisRoundTrip(longitude, lonRange, step);
    var a := Decoded(latRange, lonRange, h);
    RowColDetermine(Encoded(latRange, lonRange, a.latitude.min, a.longitude.min, step).bits, h.bits);
  }

  lemma AxisRoundTrip(v: real, range: Range, step: nat)
    requires range.Proper() && range.Has(v) && step <= 30
    ensures var i := Cell(v, range, step);
      && Next32(i) == i + 1
      && Corner(i, range, step) <= v < Corner(i + 1, range, step)
      && v - Corner(i, range, step) < Side(range, step)
      && range.Has(Corner(i, range, step)) && Cell(Corner(i, range, step), range, step) == i
  {
    hide Index, Corner, Side, Next32;
    var i := Cell(v, range, step);
    IndexIsCell(v, range, step, i);
    CornerStep(i, range, step);
    LastCorner(range, step);
    CornerMono(0, i, range, step);
    IndexOfCorner(i, range, step);
    IndexBounds(v, range, step);
    NextFits(i, step);
  }

  lemma NextFits(i: nat, step: nat)
    requires i <= Pow2(step) && step <= 30
    ensures Next32(i) == i + 1
  {
    hide Pow2;
    Pow2Mono(step, 30);
    Pow2Quarter(30);
    QuotientUnique(i + 1, Pow2(32), 0, i + 1);
  }

  lemma Pow2Quarter(n: nat)
    ensures Pow2(n + 2) == 4 * Pow2(n)
  {
    assert Pow2(n + 1) == 2 * Pow2(n);
  }

  /** Encoding at step s is the step-26 code shifted right by 2(26 - s). */
  lemma EncodeShift(latRange: Range, lonRange: Range, latitude: real, longitude: real, s: nat)
    requires latRange.Proper() && lonRange.Proper() && latRange.Has(latitude) && lonRange.Has(longitude)
    requires 1 <= s <= GEO_STEP_MAX
    ensures Val(Encoded(latRange, lonRange, latitude, longitude, s).bits)
         == Drop(Val(Encoded(latRange, lonRange, latitude, longitude, GEO_STEP_MAX).bits), 2 * (GEO_STEP_MAX - s))
  {
    var k := GEO_STEP_MAX - s;
    CellShift(latitude, latRange, s, k);
    CellShift(longitude, lonRange, s, k);
    MortonPrefix(Cell(latitude, latRange, GEO_STEP_MAX), Cell(longitude, lonRange, GEO_STEP_MAX), k);
  }

  // ---------- neighbours ----------

  /** The hash one step towards (dx, dy). */
  function Shifted(h: Hash, dx: int, dy: int): Hash
    requires 1 <= h.step <= 32
  {
    Hash(MovedY(MovedX(h.bits, h.step, dx), h.step, dy), h.step)
  }

  /** GeoHashNeighbors. */
  datatype Neighbors = Neighbors(north: Hash, east: Hash, west: Hash, south: Hash,
                                 northEast: Hash, southEast: Hash, northWest: Hash, southWest: Hash)

  function NeighborsOf(h: Hash): Neighbors
    requires 1 <= h.step <= 32
  {
    Neighbors(Shifted(h, 0, 1), Shifted(h, 1, 0), Shifted(h, -1, 0), Shifted(h, 0, -1),
              Shifted(h, 1, 1), Shifted(h, 1, -1), Shifted(h, -1, 1), Shifted(h, -1, -1))
  }

  /** A GeoHashBits struct behind a pointer, updated in place by the two move functions. */
  class HashCell {
    var bits: bv64
    var step: nat

    constructor (h: Hash)
      ensures bits == h.bits && step == h.step
    {
      bits, step := h.bits, h.step;
    }

    function Get(): Hash
      reads this
    {
      Hash(bits, step)
    }

    method MoveX(d: int)
      requires 1 <= step <= 32
      modifies this
      ensures step == old(step) && bits == MovedX(old(bits), step, d)
    {
      if d == 0 {
        return;
      }
      var x := OddBits(bits);
      var y := EvenBits(bits);
      var zz := Shr(EVEN, 64 - step * 2);
      if d > 0 {
        x := Plus(x, Inc(zz));
      } else {
        x := Or(x, zz);
        x := Minus(x, Inc(zz));
      }
      x := And(x, Shr(ODD, 64 - step * 2));
      bits := Or(x, y);
    }

    method MoveY(d: int)
      requires 1 <= step <= 32
      modifies this
      ensures step == old(step) && bits == MovedY(old(bits), step, d)
    {
      if d == 0 {
        return;
      }
      var x := OddBits(bits);
      var y := EvenBits(bits);
      var zz := Shr(ODD, 64 - step * 2);
      if d > 0 {
        y := Plus(y, Inc(zz));
      } else {
        y := Or(y, zz);
        y := Minus(y, Inc(zz));
      }
      y := And(y, Shr(EVEN, 64 - step * 2));
      bits := Or(x, y);
    }
  }

  method MovedCell(h: Hash, dx: int, dy: int) returns (r: Hash)
    requires 1 <= h.step <= 32
    ensures r == Shifted(h, dx, dy)
  {
    var cell := new HashCell(h);
    cell.MoveX(dx);
    cell.MoveY(dy);
    r := cell.Get();
  }

  /** geohashNeighbors. */
  method GetNeighbors(hash: Hash) returns (n: Neighbors)
    requires 1 <= hash.step <= 32
    ensures n == NeighborsOf(hash)
  {
    var east := MovedCell(hash, 1, 0);
    var west := MovedCell(hash, -1, 0);
    var south := MovedCell(hash, 0, -1);
    var north := MovedCell(hash, 0, 1);
    var northWest := MovedCell(hash, -1, 1);
    var northEast := MovedCell(hash, 1, 1);
    var southEast := MovedCell(hash, 1, -1);
    var southWest := MovedCell(hash, -1, -1);
    n := Neighbors(north, east, west, south, northEast, southEast, northWest, southWest);
  }

  /** Each shifted hash is the cell (dx, dy) away on the 2^step torus. */
  lemma ShiftedCell(h: Hash, dx: int, dy: int)
    requires 1 <= h.step <= 32
    ensures Row(Shifted(h, dx, dy).bits) == Around(Row(h.bits), dy, h.step)
    ensures Col(Shifted(h, dx, dy).bits) == Around(Col(h.bits), dx, h.step)
  {
    MovedXModular(h.bits, h.step, dx);
    MovedYModular(MovedX(h.bits, h.step, dx), h.step, dy);
  }

  predicate OnGrid(h: Hash) { Row(h.bits) < Pow2(h.step) && Col(h.bits) < Pow2(h.step) }

  /** Of a hash on the grid, opposite neighbours undo each other. */
  lemma OppositeUndone(h: Hash, dx: int, dy: int)
    requires 1 <= h.step <= 32 && OnGrid(h)
    ensures Shifted(Shifted(h, dx, dy), -dx, -dy) == h
  {
    hide MovedX, MovedY, Row, Col;
    var a := MovedX(h.bits, h.step, dx);
    MovesCommute(MovedY(a, h.step, dy), h.step, -dx, -dy);
    UndoX(h.bits, h.step, dx);
    UndoY(a, h.step, dy);
  }

  lemma UndoX(bits: bv64, step: nat, d: int)
    requires 1 <= step <= 32 && Col(bits) < Pow2(step)
    ensures MovedX(MovedX(bits, step, d), step, -d) == bits
    ensures Row(MovedX(bits, step, d)) == Row(bits)
  {
    MovedXModular(bits, step, d);
    if d != 0 {
      MoveXUndone(bits, step, d);
    }
  }

  lemma UndoY(bits: bv64, step: nat, d: int)
    requires 1 <= step <= 32 && Row(bits) < Pow2(step)
    ensures MovedY(MovedY(bits, step, d), step, -d) == bits
  {
    if d != 0 {
      MoveYUndone(bits, step, d);
    }
  }

  predicate Unit(d: int) { -1 <= d <= 1 }

  ghost predicate NineCells(h: Hash)
    requires 1 <= h.step <= 32
  {
    forall dx, dy, ex, ey {:trigger Shifted(h, dx, dy), Shifted(h, ex, ey)} ::
      Unit(dx) && Unit(dy) && Unit(ex) && Unit(ey) && Shifted(h, dx, dy) == Shifted(h, ex, ey) ==> dx == ex && dy == ey
  }

  /** The nine cells of the block are pairwise different exactly when the grid is at least 4 x 4. */
  lemma NineDistinct(h: Hash)
    requires 1 <= h.step <= 32 && OnGrid(h)
    ensures NineCells(h) <==> h.step >= 2
  {
    if h.step == 1 {
      EastIsWest(h);
    } else {
      forall dx, dy, ex, ey | Unit(dx) && Unit(dy) && Unit(ex) && Unit(ey) && Shifted(h, dx, dy) == Shifted(h, ex, ey)
        ensures dx == ex && dy == ey
      {
        ShiftedDistinct(h, dx, dy, ex, ey);
      }
    }
  }

  lemma TwoOnCircle(i: nat)
    ensures Around(i, 1, 1) == Around(i, -1, 1)
  {
    assert Pow2(1) == 2;
  }

  lemma EastIsWest(h: Hash)
    requires h.step == 1
    ensures Shifted(h, 1, 0) == Shifted(h, -1, 0)
  {
    ShiftedCell(h, 1, 0);
    ShiftedCell(h, -1, 0);
    TwoOnCircle(Col(h.bits));
    RowColDetermine(Shifted(h, 1, 0).bits, Shifted(h, -1, 0).bits);
  }

  lemma ShiftedDistinct(h: Hash, dx: int, dy: int, ex: int, ey: int)
    requires 2 <= h.step <= 32 && OnGrid(h) && Unit(dx) && Unit(dy) && Unit(ex) && Unit(ey)
    requires Shifted(h, dx, dy) == Shifted(h, ex, ey)
    ensures dx == ex && dy == ey
  {
    ShiftedCell(h, dx, dy);
    ShiftedCell(h, ex, ey);
    AroundDistinct(Row(h.bits), dy, ey, h.step);
    AroundDistinct(Col(h.bits), dx, ex, h.step);
  }

  lemma AroundDistinct(i: nat, d: int, e: int, step: nat)
    requires Unit(d) && Unit(e) && step >= 2 && i < Pow2(step)
    requires Around(i, d, step) == Around(i, e, step)
    ensures d == e
  {
    Pow2Mono(2, step);
    AroundCases(i, d, step);
    AroundCases(i, e, step);
  }

  lemma AroundCases(i: nat, d: int, step: nat)
    requires Unit(d) && i < Pow2(step)
    ensures Around(i, d, step) == if i + d == Pow2(step) then 0 else if i + d == -1 then Pow2(step) - 1 else i + d
  {
    var n := Pow2(step);
    if i + d == n {
      QuotientUnique(i + d, n, 1, 0);
    } else if i + d == -1 {
      QuotientUnique(i + d, n, -1, n - 1);
    } else {
      QuotientUnique(i + d, n, 0, i + d);
    }
  }
}
