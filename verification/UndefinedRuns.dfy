// Searches ssdb_geo_members does not get through: it unlinks a node at an end of its list.
module UndefinedRuns {
  import opened Arith
  import opened Morton
  import opened Geohash
  import opened GeoRadius
  import opened GeoIndex
  import opened GeoSearch
  import opened GeoMembers
  import opened SearchLimits
  import opened CStrings

  /** What the first box holds comes first. */
  lemma {:induction false} FirstBoxFirst(ct: CoordType, db: Zset, hs: seq<Hash>, limit: nat)
    requires hs != [] && forall h | h in hs :: Scannable(h)
    ensures ScanBox(ct, db, hs[0], limit) <= ScanAll(ct, db, hs, limit)
  {
    var init := hs[..|hs| - 1];
    if init != [] {
      FirstBoxFirst(ct, db, init, limit);
    } else {
      assert ScanAll(ct, db, init, limit) == [];
    }
  }

  /** A search whose first box begins with a point that fails the test, the centre member for one, is
      undefined, whatever else is stored: the point heads the list and is unlinked from it. */
  lemma FirstNotKept(q: Query, db: Zset, limit: nat)
    requires Scannable(q.Areas().hash) && ScanBox(q.ct, db, q.Areas().hash, limit) != []
    requires !Keeps(q, ScanBox(q.ct, db, q.Areas().hash, limit)[0])
    ensures !RunDefined(q, db, limit)
  {
    hide Areas, Keeps, ScanAll, ScanBox;
    var g := q.Areas();
    QueryScannable(q);
    assert Boxes(g)[0] == g.hash;
    FirstBoxFirst(q.ct, db, Boxes(g), limit);
    assert QueryPoints(q, db, limit)[0] == ScanBox(q.ct, db, g.hash, limit)[0];
  }

  /** So is a search whose last box, the south-western one, ends with a point that fails the test: the
      point ends the list. */
  lemma LastNotKept(q: Query, db: Zset, limit: nat)
    requires Scannable(q.Areas().neighbors.southWest) && ScanBox(q.ct, db, q.Areas().neighbors.southWest, limit) != []
    requires var ps := ScanBox(q.ct, db, q.Areas().neighbors.southWest, limit); !Keeps(q, ps[|ps| - 1])
    ensures !RunDefined(q, db, limit)
  {
    hide Areas, Keeps, ScanBox;
    var hs := Boxes(q.Areas());
    QueryScannable(q);
    assert hs[8] == q.Areas().neighbors.southWest;
    var last, all := ScanBox(q.ct, db, hs[8], limit), QueryPoints(q, db, limit);
    assert all == ScanAll(q.ct, db, hs[..8], limit) + last;
    assert all[|all| - 1] == last[|last| - 1];
  }

  /** The centre member and another one, both stored at the centre's position. */
  function TwoMembers(q: Query, other: string): Zset
    requires q.ct.InWorld(q.latitude, q.longitude)
  {
    [Entry(q.centre, OwnScore(q)), Entry(other, OwnScore(q))]
  }

  /** The centre's own cell, scanned first, has both. */
  lemma OwnBox(q: Query, member: string)
    requires q.ct.InWorld(q.latitude, q.longitude)
    ensures HasScore(q.Areas().hash, Entry(member, OwnScore(q)))
  {
    hide Cell, MortonCode, ScoreLatitude, ScoreLongitude, StepFor, Corner;
    var s := StepFor(q.radius);
    OwnPosition(q);
    ScoreCells(q.ct, OwnScore(q), s);
    OwnCell(q.latitude, q.ct.LatRange(), s);
    OwnCell(q.longitude, q.ct.LonRange(), s);
    assert q.Areas().hash == Boxes(q.Areas())[0];
    NamedScanned(q, q.Areas().hash, Entry(member, OwnScore(q)),
                 Cell(q.latitude, q.ct.LatRange(), s), Cell(q.longitude, q.ct.LonRange(), s));
  }

  /** With these two stored, a search around the first is undefined. */
  lemma CentreFirst(q: Query, other: string, limit: nat)
    requires q.ct.InWorld(q.latitude, q.longitude) && limit > 0
    ensures !RunDefined(q, TwoMembers(q, other), limit)
  {
    hide OwnScore, Areas, Keeps, HasScore, ScanBox;
    var db, g := TwoMembers(q, other), q.Areas();
    OwnBox(q, q.centre);
    OwnBox(q, other);
    BothFound(q, db[0], db[1], g.hash, limit);
    assert Scannable(g.hash) by { QueryScannable(q); assert Boxes(g)[0] == g.hash; }
    CentreNotKept(q);
    FirstNotKept(q, db, limit);
  }

  lemma BothInRange(a: Entry, b: Entry, lo: nat, hi: nat)
    requires InInterval(a, lo, hi) && InInterval(b, lo, hi)
    ensures InRange([a, b], lo, hi) == [a, b]
  {
    hide InInterval;
    assert [a][..0] == [] && [a, b][..1] == [a];
    assert InRange([a], lo, hi) == [a];
  }

  lemma BothFound(q: Query, a: Entry, b: Entry, h: Hash, limit: nat)
    requires HasScore(h, a) && HasScore(h, b) && limit > 0
    ensures ScanBox(q.ct, [a, b], h, limit) != [] && ScanBox(q.ct, [a, b], h, limit)[0] == PointOf(q.ct, a)
  {
    hide LowScore, HighScore, InInterval, PointOf;
    BothInRange(a, b, LowScore(h), HighScore(h));
  }

  lemma CentreNotKept(q: Query)
    requires q.ct.InWorld(q.latitude, q.longitude)
    ensures !Keeps(q, PointOf(q.ct, Entry(q.centre, OwnScore(q))))
  {
    CentreIsMember(q, q.centre);
  }

  /** For one: "a" and "b" are stored at latitude and longitude 0; a search of 1 km around "a" has "b"
      to find and is undefined. */
  lemma UndefinedSearch(trig: Trig) returns (store: Store, q: Query)
    requires trig.haversine(0.0, 0.0, 0.0, 0.0) == 0.0
    ensures q == Query(WGS84(trig), "a", 0.0, 0.0, 1000.0) && Storable(DbOf(store, "key"))
    ensures exists p :: p in NaiveSearch(q, DbOf(store, "key")) && p.member == "b"
    ensures forall limit: nat | limit > 0 :: !RunDefined(q, DbOf(store, "key"), limit)
  {
    hide RunDefined, NaiveSearch, OwnScore;
    q := Query(WGS84(trig), "a", 0.0, 0.0, 1000.0);
    store := map["key" := TwoMembers(q, "b")];
    forall limit: nat | limit > 0
      ensures !RunDefined(q, DbOf(store, "key"), limit)
    {
      CentreFirst(q, "b", limit);
    }
    OtherFound(q, "b");
    OwnStorable(q);
  }

  lemma OwnStorable(q: Query)
    requires q.ct.InWorld(q.latitude, q.longitude)
    ensures OwnScore(q) < Pow2(63)
  {
    OwnPosition(q);
    Pow2Mono(52, 63);
  }

  /** At the origin the stored position is the position itself. */
  lemma OriginStored(q: Query)
    requires q.ct.WGS84? && q.latitude == 0.0 && q.longitude == 0.0
    ensures ScoreLatitude(q.ct, OwnScore(q)) == 0.0 && ScoreLongitude(q.ct, OwnScore(q)) == 0.0
  {
    hide Pow2, Corner, Index, Side;
    OwnPosition(q);
    MiddleCell(WGS84_LAT, 25);
    MiddleCell(WGS84_LON, 25);
  }

  lemma OtherFound(q: Query, other: string)
    requires q.ct.WGS84? && q.latitude == 0.0 && q.longitude == 0.0 && |other| == 1 && q.centre == "a" && other != "a"
    requires q.ct.trig.haversine(0.0, 0.0, 0.0, 0.0) <= q.radius && other[0] != '\0'
    ensures exists p :: p in NaiveSearch(q, TwoMembers(q, other)) && p.member == other
  {
    hide OwnScore;
    var e := Entry(other, OwnScore(q));
    OriginStored(q);
    assert CStr(other) == other && CStr("a") == "a";
    assert TwoMembers(q, other)[1] == e && Wanted(q, e);
    NaiveFinds(q, TwoMembers(q, other), FoundOf(q, e));
  }
}
