// From cells to scores: geohashAlign52Bits, the score interval of a cell, and the positions
// scores decode to.
module GeoIndex {
  import opened Arith
  import opened Words
  import opened Morton
  import opened Geohash
  import opened GeoRadius

  /** geohashAlign52Bits. */
  function Align52(h: Hash): bv64
    requires h.step <= 26
  {
    Shl(h.bits, 52 - h.step * 2)
  }

  /** The hash after `hash.bits++`. */
  function NextHash(h: Hash): Hash { Hash(Inc(h.bits), h.step) }

  function LowScore(h: Hash): nat
    requires h.step <= 26
  {
    Val(Align52(h))
  }

  function HighScore(h: Hash): nat
    requires h.step <= 26
  {
    Val(Align52(NextHash(h)))
  }

  /** A cell number of its step; the extra room is for positions on the map's upper edges. */
  predicate CellSized(h: Hash) { h.step <= 26 && Val(h.bits) < Pow2(2 * h.step + 2) }

  lemma AlignVal(h: Hash)
    requires CellSized(h)
    ensures LowScore(h) == Lift(Val(h.bits), 52 - h.step * 2)
    ensures HighScore(h) == Lift(Val(h.bits) + 1, 52 - h.step * 2)
  {
    hide Val, Lift, Pow2;
    IncInRoom(h.bits, 2 * h.step + 2);
    AlignWord(h.bits, h.step);
    AlignWord(Inc(h.bits), h.step);
  }

  lemma AlignWord(w: bv64, step: nat)
    requires step <= 26 && Val(w) < Pow2(2 * step + 3)
    ensures Val(Shl(w, 52 - step * 2)) == Lift(Val(w), 52 - step * 2)
  {
    ValShl(w, 52 - step * 2, 2 * step + 3);
  }

  lemma IncInRoom(w: bv64, k: nat)
    requires Val(w) < Pow2(k) && k < 64
    ensures Val(Inc(w)) == Val(w) + 1 < Pow2(k + 1)
    ensures Val(w) < Pow2(k + 1)
  {
    Pow2Mono(k + 1, 64);
    IncNoWrap(w);
    ValInc(w);
  }

  lemma IncNoWrap(w: bv64)
    requires Val(w) + 1 < Pow2(64)
    ensures w != 0xFFFF_FFFF_FFFF_FFFF
  {
    if w == 0xFFFF_FFFF_FFFF_FFFF {
      AllOnes();
      ValOnes(64);
    }
  }

  lemma AllOnes()
    ensures Ones(64) == 0xFFFF_FFFF_FFFF_FFFF
  {
    Ones32();
    FourMoreOnes(32, 0xFFFF_FFFF);
    FourMoreOnes(36, 0xF_FFFF_FFFF);
    FourMoreOnes(40, 0xFF_FFFF_FFFF);
    FourMoreOnes(44, 0xFFF_FFFF_FFFF);
    FourMoreOnes(48, 0xFFFF_FFFF_FFFF);
    FourMoreOnes(52, 0xF_FFFF_FFFF_FFFF);
    FourMoreOnes(56, 0xFF_FFFF_FFFF_FFFF);
    FourMoreOnes(60, 0xFFF_FFFF_FFFF_FFFF);
  }

  /** A step-26 code lies in the cell exactly when it is in [align52(c), align52(c + 1)). */
  lemma CellInterval(h: Hash, score: nat)
    requires CellSized(h)
    ensures Drop(score, 52 - h.step * 2) == Val(h.bits) <==> LowScore(h) <= score < HighScore(h)
  {
    AlignVal(h);
    DropIsBlock(score, 52 - h.step * 2, Val(h.bits));
  }

  /** The inclusive interval zscan is asked for holds one code more: the first of the next cell. */
  lemma ScanInterval(h: Hash, score: nat)
    requires CellSized(h)
    ensures LowScore(h) <= score <= HighScore(h) <==>
      Drop(score, 52 - h.step * 2) == Val(h.bits) || score == HighScore(h)
  {
    CellInterval(h, score);
    AlignVal(h);
    LiftMono(Val(h.bits), Val(h.bits) + 1, 52 - h.step * 2);
  }

  // ---------- scores and positions ----------

  /** The minimum corner of the step-26 cell of a score (decodeGeohash). */
  function ScoreLatitude(ct: CoordType, score: nat): real {
    Corner(EvenDigits(score), ct.LatRange(), GEO_STEP_MAX)
  }

  function ScoreLongitude(ct: CoordType, score: nat): real {
    Corner(OddDigits(score), ct.LonRange(), GEO_STEP_MAX)
  }

  /** decodeGeohash on the number atoll read. */
  method DecodeScore(ct: CoordType, score: nat) returns (ok: bool, latitude: real, longitude: real)
    requires score < Pow2(64)
    ensures ok && latitude == ScoreLatitude(ct, score) && longitude == ScoreLongitude(ct, score)
  {
    RowColOfNumber(score);
    var area;
    ok, area := Decode(ct.LatRange(), ct.LonRange(), Hash(ToWord(score), GEO_STEP_MAX),
                       Area(ZERO_HASH, Range(0.0, 0.0), Range(0.0, 0.0)));
    latitude, longitude := area.latitude.min, area.longitude.min;
  }

  /** A score of the 2^26 x 2^26 grid. */
  predicate IsScore(score: nat) { score < Pow2(52) }

  lemma ScoreCells(ct: CoordType, score: nat, s: nat)
    requires IsScore(score) && 1 <= s <= 26
    ensures ct.InWorld(ScoreLatitude(ct, score), ScoreLongitude(ct, score))
    ensures MortonCode(Cell(ScoreLatitude(ct, score), ct.LatRange(), s), Cell(ScoreLongitude(ct, score), ct.LonRange(), s))
         == Drop(score, 52 - 2 * s)
  {
    var i, j := EvenDigits(score), OddDigits(score);
    ScoreRowCol(score);
    CornerCell(i, ct.LatRange(), s);
    CornerCell(j, ct.LonRange(), s);
    PrefixAt(i, j, s);
  }

  lemma PrefixAt(i: nat, j: nat, s: nat)
    requires s <= 26
    ensures Drop(MortonCode(i, j), 52 - 2 * s) == MortonCode(Drop(i, 26 - s), Drop(j, 26 - s))
  {
    MortonPrefix(i, j, 26 - s);
  }

  lemma ScoreRowCol(score: nat)
    requires IsScore(score)
    ensures EvenDigits(score) < Pow2(26) && OddDigits(score) < Pow2(26)
    ensures MortonCode(EvenDigits(score), OddDigits(score)) == score
  {
    DigitsOfCode(score);
    MortonBound(EvenDigits(score), OddDigits(score), 26);
  }

  lemma CornerCell(i: nat, range: Range, s: nat)
    requires range.Proper() && i < Pow2(26) && s <= 26
    ensures range.Inside(Corner(i, range, 26))
    ensures Cell(Corner(i, range, 26), range, s) == Drop(i, 26 - s)
  {
    LastCorner(range, 26);
    CornerMono(0, i, range, 26);
    CornerStep(i, range, 26);
    CornerMono(i + 1, Pow2(26), range, 26);
    IndexOfCorner(i, range, 26);
    CellShift(Corner(i, range, 26), range, s, 26 - s);
  }

  /** The score geo_set stores for a position. */
  function GeoScore(ct: CoordType, latitude: real, longitude: real): nat
    requires ct.OnMap(latitude, longitude)
  {
    Val(Align52(Encoded(ct.LatRange(), ct.LonRange(), latitude, longitude, GEO_STEP_MAX)))
  }

  /** geo_set then geo_get: the position comes back off by less than a cell side on both axes,
      and storing what came back stores the same score. */
  lemma SetThenGet(ct: CoordType, latitude: real, longitude: real)
    requires ct.OnMap(latitude, longitude)
    ensures var score := GeoScore(ct, latitude, longitude);
      var la, lo := ScoreLatitude(ct, score), ScoreLongitude(ct, score);
      && 0.0 <= latitude - la < Side(ct.LatRange(), GEO_STEP_MAX)
      && 0.0 <= longitude - lo < Side(ct.LonRange(), GEO_STEP_MAX)
      && ct.OnMap(la, lo) && GeoScore(ct, la, lo) == score
  {
    var h := Encoded(ct.LatRange(), ct.LonRange(), latitude, longitude, GEO_STEP_MAX);
    EncodeDecode(ct.LatRange(), ct.LonRange(), latitude, longitude, GEO_STEP_MAX);
    CodeOfRowCol(h.bits);
    DigitsOfCode(Val(h.bits));
    MortonInjective(Row(h.bits), Col(h.bits), EvenDigits(Val(h.bits)), OddDigits(Val(h.bits)));
  }

  /** The stored score is on the grid exactly for the positions off the map's upper edges. */
  lemma ScoreOnGrid(ct: CoordType, latitude: real, longitude: real)
    requires ct.OnMap(latitude, longitude)
    ensures IsScore(GeoScore(ct, latitude, longitude)) <==> ct.InWorld(latitude, longitude)
  {
    OnGridAxis(latitude, ct.LatRange());
    OnGridAxis(longitude, ct.LonRange());
    MortonBound(Cell(latitude, ct.LatRange(), 26), Cell(longitude, ct.LonRange(), 26), 26);
  }

  lemma OnGridAxis(v: real, range: Range)
    requires range.Proper() && range.Has(v)
    ensures Cell(v, range, 26) < Pow2(26) <==> range.Inside(v)
  {
    IndexBounds(v, range, 26);
  }
}
