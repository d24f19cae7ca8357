// From the stored members to the result: which members a search returns, and how many.
module NearestMembers {
  import opened CStrings
  import opened Commands
  import opened Links
  import opened Geohash
  import opened GeoRadius
  import opened GeoIndex
  import opened GeoSearch
  import opened GeoMembers
  import opened Ranking
  import opened HitCount

  // ---------- the members wanted, and how often they are listed ----------

  /** Names that differ as C strings, as names without NUL do. */
  ghost predicate DistinctNames(db: Zset) {
    forall i, j | 0 <= i < j < |db| :: CStr(db[i].member) != CStr(db[j].member)
  }

  /** The wanted members in the comparator's order. */
  function Ranked(q: Query, db: Zset): seq<GeoPoint> { Sort(NaiveSearch(q, db)) }

  /** How often each point is listed before the sort. */
  function Listings(q: Query, db: Zset): multiset<GeoPoint> { multiset(Search(q, db, |db|)) }

  /** The number of entries returned for a sorted set. */
  function Hits(q: Query, db: Zset, limit: int): nat { Reached(Ranked(q, db), Listings(q, db), limit) }

  lemma {:induction false} SameScan(ct: CoordType, db: Zset, hs: seq<Hash>, limit: nat)
    requires (forall h | h in hs :: Scannable(h)) && limit >= |db|
    ensures ScanAll(ct, db, hs, limit) == ScanAll(ct, db, hs, |db|)
  {
    hide Scannable, LowScore, HighScore;
    if hs != [] {
      var h := hs[|hs| - 1];
      assert Scannable(h);
      SameScan(ct, db, hs[..|hs| - 1], limit);
      SameBox(ct, db, h, limit);
    }
  }

  lemma SameBox(ct: CoordType, db: Zset, h: Hash, limit: nat)
    requires Scannable(h) && limit >= |db|
    ensures ScanBox(ct, db, h, limit) == ScanBox(ct, db, h, |db|)
  {
    hide LowScore, HighScore;
    if !HashIsZero(h) {
      InRangeHas(db, LowScore(h), HighScore(h), Entry("", 0));
    }
  }

  /** A limit beyond the set makes no difference. */
  lemma SameSearch(q: Query, db: Zset, limit: nat)
    requires limit >= |db|
    ensures Search(q, db, limit) == Search(q, db, |db|)
  {
    hide Areas, Boxes, Scannable;
    QueryScannable(q);
    SameScan(q.ct, db, Boxes(q.Areas()), limit);
  }

  lemma MeasuredIsFound(q: Query, p: GeoPoint, e: Entry)
    requires p.dist == 0.0
    ensures Measured(q, p) == FoundOf(q, e) <==> p == PointOf(q.ct, e)
  {
  }

  lemma {:induction false} FilteredTimes(q: Query, ps: seq<GeoPoint>, e: Entry)
    requires (forall p | p in ps :: p.dist == 0.0) && Wanted(q, e)
    ensures multiset(Filtered(q, ps))[FoundOf(q, e)] == multiset(ps)[PointOf(q.ct, e)]
  {
    hide Keeps, Wanted, FoundOf, PointOf, Measured;
    if ps != [] {
      var init, last := ps[..|ps| - 1], ps[|ps| - 1];
      assert ps == init + [last];
      FilteredTimes(q, init, e);
      MeasuredIsFound(q, last, e);
      WantedKept(q, e);
    }
  }

  /** A wanted member is listed once for each scanned box whose interval holds its score. */
  lemma ListingsTimes(q: Query, db: Zset, e: Entry)
    requires DistinctEntries(db) && e in db && Wanted(q, e)
    ensures Listings(q, db)[FoundOf(q, e)] == Times(Boxes(q.Areas()), e)
  {
    hide Areas, Boxes, Wanted, FoundOf, Filtered, ScanAll, Scanned;
    QueryScannable(q);
    var hs := Boxes(q.Areas());
    ListedTimes(q.ct, db, hs, |db|, e);
    forall p | p in ScanAll(q.ct, db, hs, |db|)
      ensures p.dist == 0.0
    {
      ScanAllHas(q.ct, db, hs, |db|, p);
    }
    FilteredTimes(q, QueryPoints(q, db, |db|), e);
  }

  // ---------- the ranking ----------

  lemma {:induction false} CountsOfNoRepeat(s: seq<GeoPoint>, p: GeoPoint)
    requires NoRepeat(s)
    ensures multiset(s)[p] <= 1
  {
    if s != [] {
      var init, last := s[..|s| - 1], s[|s| - 1];
      assert s == init + [last];
      CountsOfNoRepeat(init, p);
      assert last !in init;
    }
  }

  lemma CountedTwice(s: seq<GeoPoint>, i: nat, j: nat)
    requires i < j < |s| && s[i] == s[j]
    ensures multiset(s)[s[i]] >= 2
  {
    assert s == s[..j] + s[j..];
    assert multiset(s) == multiset(s[..j]) + multiset(s[j..]);
    assert s[..j][i] == s[i] && s[j..][0] == s[i];
    assert s[i] in multiset(s[..j]) && s[i] in multiset(s[j..]);
  }

  lemma NoRepeatOfCounts(s: seq<GeoPoint>)
    requires forall p :: multiset(s)[p] <= 1
    ensures NoRepeat(s)
  {
    forall i, j | 0 <= i < j < |s|
      ensures s[i] != s[j]
    {
      if s[i] == s[j] {
        CountedTwice(s, i, j);
      }
    }
  }

  lemma {:induction false} NaiveNoRepeat(q: Query, db: Zset)
    requires DistinctEntries(db)
    ensures NoRepeat(NaiveSearch(q, db))
  {
    hide Keeps, PointOf, FoundOf, Wanted;
    if db != [] {
      var init, last := db[..|db| - 1], db[|db| - 1];
      assert db == init + [last];
      NaiveNoRepeat(q, init);
      assert PointsOf(q.ct, db)[..|db| - 1] == PointsOf(q.ct, init);
      WantedKept(q, last);
      NewFound(q, init, last);
    }
  }

  lemma NewFound(q: Query, init: Zset, last: Entry)
    requires DistinctEntries(init + [last])
    ensures FoundOf(q, last) !in NaiveSearch(q, init)
  {
    hide NaiveSearch, Wanted;
    var db := init + [last];
    NaiveFinds(q, init, FoundOf(q, last));
    forall e | e in init
      ensures FoundOf(q, e) != FoundOf(q, last)
    {
      var i :| 0 <= i < |init| && init[i] == e;
      assert db[i] == e && db[|init|] == last;
    }
  }

  lemma NamesDistinct(db: Zset)
    requires DistinctNames(db)
    ensures DistinctEntries(db)
  {
  }

  lemma NaiveNames(q: Query, db: Zset, a: GeoPoint, b: GeoPoint)
    requires DistinctNames(db) && a in NaiveSearch(q, db) && b in NaiveSearch(q, db) && CStr(a.member) == CStr(b.member)
    ensures a == b
  {
    hide NaiveSearch, Wanted, CStr;
    NaiveFinds(q, db, a);
    NaiveFinds(q, db, b);
    var d :| d in db && Wanted(q, d) && a == FoundOf(q, d);
    var e :| e in db && Wanted(q, e) && b == FoundOf(q, e);
    var i :| 0 <= i < |db| && db[i] == d;
    var j :| 0 <= j < |db| && db[j] == e;
    assert i == j;
  }

  /** The ranking: every wanted member once, in order. */
  lemma RankedWell(q: Query, db: Zset)
    requires DistinctNames(db)
    ensures SortOf(Ranked(q, db), NaiveSearch(q, db)) && |Ranked(q, db)| == |NaiveSearch(q, db)|
    ensures NoRepeat(Ranked(q, db)) && NamesApart(Ranked(q, db))
    ensures forall p :: p in Ranked(q, db) <==> p in NaiveSearch(q, db)
  {
    hide NaiveSearch, Sort, CStr, Before;
    var naive, ranked := NaiveSearch(q, db), Ranked(q, db);
    SortSorts(naive);
    assert |ranked| == |multiset(ranked)| == |multiset(naive)| == |naive|;
    forall p
      ensures p in ranked <==> p in naive
    {
      assert p in multiset(ranked) <==> p in multiset(naive);
    }
    NamesDistinct(db);
    NaiveNoRepeat(q, db);
    forall p
      ensures multiset(ranked)[p] <= 1
    {
      CountsOfNoRepeat(naive, p);
    }
    NoRepeatOfCounts(ranked);
    forall i, j | 0 <= i < |ranked| && 0 <= j < |ranked| && CStr(ranked[i].member) == CStr(ranked[j].member)
      ensures ranked[i] == ranked[j]
    {
      NaiveNames(q, db, ranked[i], ranked[j]);
    }
  }

  lemma AllListed(q: Query, db: Zset)
    requires DistinctNames(db) && SameFound(Search(q, db, |db|), NaiveSearch(q, db))
    ensures forall p | p in Ranked(q, db) :: Listings(q, db)[p] > 0
  {
    hide Ranked, Search, NaiveSearch;
    RankedWell(q, db);
    forall p | p in Ranked(q, db)
      ensures Listings(q, db)[p] > 0
    {
      assert p in Search(q, db, |db|);
      assert p in multiset(Search(q, db, |db|));
    }
  }

  // ---------- how many are returned ----------

  /** The number of entries of a result, from what is stored. */
  lemma EntriesReturned(q: Query, db: Zset, zscanLimit: nat, result: PhpArray<Hit>, limit: int)
    requires DistinctNames(db) && zscanLimit >= |db|
    requires SameFound(Search(q, db, zscanLimit), NaiveSearch(q, db)) && TopOf(result, Search(q, db, zscanLimit), limit)
    ensures |result| == Hits(q, db, limit)
  {
    hide Ranked, Search, NaiveSearch, Returned, SortOf, Ordered, NoRepeat, NamesApart;
    SameSearch(q, db, zscanLimit);
    var found := Search(q, db, |db|);
    var s :| SortOf(s, found) && result == Returned(s[..Cutoff(limit, |s|)]);
    RankedWell(q, db);
    OrderedOfSort(Ranked(q, db), NaiveSearch(q, db));
    AllListed(q, db);
    SortedIsSpread(s, found, Ranked(q, db));
    SpreadPlaces(Ranked(q, db), Listings(q, db));
    EntriesCount(Ranked(q, db), Listings(q, db), Cutoff(limit, |s|));
  }

  lemma OrderedOfSort(s: seq<GeoPoint>, t: seq<GeoPoint>)
    requires SortOf(s, t)
    ensures Ordered(s)
  {
  }

  /** As many entries are returned as are due, the limit or all the wanted members, exactly when there
      is no limit or the wanted members before the last one due are listed less often than the limit. */
  lemma HitsExactly(q: Query, db: Zset, limit: int)
    requires DistinctNames(db) && SameFound(Search(q, db, |db|), NaiveSearch(q, db))
    ensures |Ranked(q, db)| == |NaiveSearch(q, db)|
    ensures var n := |Ranked(q, db)|;
      && Hits(q, db, limit) <= Due(limit, n)
      && (n > 0 ==> Hits(q, db, limit) > 0)
      && (Hits(q, db, limit) == Due(limit, n) <==>
            limit <= 0 || n == 0 || Places(Ranked(q, db)[..Due(limit, n) - 1], Listings(q, db)) < limit)
  {
    hide Ranked, Search, NaiveSearch, Listings, Reached, Places;
    RankedWell(q, db);
    AllListed(q, db);
    ReachedExactly(Ranked(q, db), Listings(q, db), limit);
  }

  /** A wanted member that is not the last one in order. */
  ghost predicate BeforeLast(q: Query, db: Zset, e: Entry) {
    Wanted(q, e) && exists i :: 0 <= i < |Ranked(q, db)| - 1 && Ranked(q, db)[i] == FoundOf(q, e)
  }

  /** As many as are due under every limit exactly when no wanted member but the last in order has its
      score in two scanned intervals. */
  lemma AlwaysDueExactly(q: Query, db: Zset)
    requires DistinctNames(db) && SameFound(Search(q, db, |db|), NaiveSearch(q, db))
    ensures (forall limit: int :: Hits(q, db, limit) == Due(limit, |NaiveSearch(q, db)|)) <==>
      forall e | e in db && BeforeLast(q, db, e) :: Times(Boxes(q.Areas()), e) == 1
  {
    hide Ranked, Search, NaiveSearch, Listings, Reached, Areas, Boxes, Wanted, FoundOf, Due;
    NamesDistinct(db);
    RankedWell(q, db);
    AllListed(q, db);
    var ranked, listed := Ranked(q, db), Listings(q, db);
    AlwaysDue(ranked, listed);
    forall limit: int
      ensures Hits(q, db, limit) == Reached(ranked, listed, limit)
    {
    }
    forall e | e in db && BeforeLast(q, db, e)
      ensures listed[FoundOf(q, e)] == Times(Boxes(q.Areas()), e)
    {
      ListingsTimes(q, db, e);
    }
    forall i | 0 <= i < |ranked| - 1
      ensures exists e :: e in db && BeforeLast(q, db, e) && FoundOf(q, e) == ranked[i]
    {
      assert ranked[i] in NaiveSearch(q, db);
      NaiveFinds(q, db, ranked[i]);
      var e :| e in db && Wanted(q, e) && ranked[i] == FoundOf(q, e);
      assert BeforeLast(q, db, e);
    }
  }

  // ---------- the result for a sorted set ----------

  /** The result for a sorted set: entries of wanted members, each name once; no wanted member left out
      without a limit, and none that is nearer than one returned; nearest first, and as many entries as
      Hits says. */
  ghost predicate Nearest(q: Query, db: Zset, result: PhpArray<Hit>, limit: int) {
    && Distinct(result)
    && (forall e | e in result :: exists m :: m in db && Wanted(q, m) && e == EntryOf(q, m))
    && (forall m | m in db && Wanted(q, m) && !HasKey(result, CStr(m.member)) ::
          limit > 0 && forall e | e in result :: e.value.distance <= FoundOf(q, m).dist)
    && (DistinctNames(db) ==> NearestFirst(result) && |result| == Hits(q, db, limit))
  }

  /** The entry of a member: its name, the latitude and longitude of its score, and its distance. */
  function EntryOf(q: Query, m: Entry): Pair<Hit> {
    var latitude, longitude := ScoreLatitude(q.ct, m.score), ScoreLongitude(q.ct, m.score);
    Pair(CStr(m.member), Hit(latitude, longitude, Distance(q, latitude, longitude)))
  }

  lemma HitOfMember(q: Query, db: Zset, e: Pair<Hit>, p: GeoPoint)
    requires p in NaiveSearch(q, db) && CStr(p.member) == e.key && HitOf(p) == e.value
    ensures exists m :: m in db && Wanted(q, m) && e == EntryOf(q, m)
  {
    hide ScoreLatitude, ScoreLongitude, NaiveSearch, Wanted;
    NaiveFinds(q, db, p);
    var m :| m in db && Wanted(q, m) && p == FoundOf(q, m);
    assert e == EntryOf(q, m);
  }

  lemma NearestFound(q: Query, db: Zset, zscanLimit: nat, result: PhpArray<Hit>, limit: int)
    requires SameFound(Search(q, db, zscanLimit), NaiveSearch(q, db)) && TopOf(result, Search(q, db, zscanLimit), limit)
    requires zscanLimit >= |db|
    ensures Nearest(q, db, result, limit)
  {
    hide Search, NaiveSearch, Returned, CStr, TopOf, EntryOf, HasKey, Wanted, FoundOf, Hits, DistinctNames;
    var found := Search(q, db, zscanLimit);
    DistinctResult(result, found, limit);
    if DistinctNames(db) {
      EntriesReturned(q, db, zscanLimit, result, limit);
      ResultInOrder(q, db, zscanLimit, result, limit);
    }
    forall e | e in result
      ensures exists m :: m in db && Wanted(q, m) && e == EntryOf(q, m)
    {
      var p := ResultPoint(result, found, limit, e);
      HitOfMember(q, db, e, p);
    }
    forall m | m in db && Wanted(q, m) && !HasKey(result, CStr(m.member))
      ensures limit > 0 && forall e | e in result :: e.value.distance <= FoundOf(q, m).dist
    {
      NaiveFinds(q, db, FoundOf(q, m));
      LeftOut(q, db, zscanLimit, result, limit, m);
    }
  }

  lemma LeftOut(q: Query, db: Zset, zscanLimit: nat, result: PhpArray<Hit>, limit: int, m: Entry)
    requires SameFound(Search(q, db, zscanLimit), NaiveSearch(q, db)) && TopOf(result, Search(q, db, zscanLimit), limit)
    requires FoundOf(q, m) in NaiveSearch(q, db) && !HasKey(result, CStr(m.member))
    ensures limit > 0 && forall e | e in result :: e.value.distance <= FoundOf(q, m).dist
  {
    hide Search, NaiveSearch, TopOf, HasKey, CStr, ScoreLatitude, ScoreLongitude, Distance;
    if limit <= 0 {
      AllReturned(result, Search(q, db, zscanLimit), limit, FoundOf(q, m));
    }
    forall e | e in result
      ensures e.value.distance <= FoundOf(q, m).dist
    {
      NothingNearerLeftOut(q, db, zscanLimit, result, limit, e, FoundOf(q, m));
    }
  }

  /** With names that differ the entries come nearest first. */
  lemma ResultInOrder(q: Query, db: Zset, zscanLimit: nat, result: PhpArray<Hit>, limit: int)
    requires SameFound(Search(q, db, zscanLimit), NaiveSearch(q, db)) && TopOf(result, Search(q, db, zscanLimit), limit)
    requires DistinctNames(db)
    ensures NearestFirst(result)
  {
    hide Search, NaiveSearch, Returned, CStr, Before, NearestFirst, DistinctNames;
    var found := Search(q, db, zscanLimit);
    var s :| SortOf(s, found) && result == Returned(s[..Cutoff(limit, |s|)]);
    var top := s[..Cutoff(limit, |s|)];
    forall a: GeoPoint, b: GeoPoint | a in top && b in top && CStr(a.member) == CStr(b.member)
      ensures a == b
    {
      assert a in multiset(s) && b in multiset(s);
      assert a in found && b in found;
      NaiveNames(q, db, a, b);
    }
    ReturnedInOrder(top);
  }

  lemma DistinctResult(result: PhpArray<Hit>, points: seq<GeoPoint>, limit: int)
    requires TopOf(result, points, limit)
    ensures Distinct(result)
  {
    hide Returned, SortOf, Distinct;
    var s :| SortOf(s, points) && result == Returned(s[..Cutoff(limit, |s|)]);
    ReturnedKeys(s[..Cutoff(limit, |s|)], "");
  }

  lemma ResultPoint(result: PhpArray<Hit>, points: seq<GeoPoint>, limit: int, e: Pair<Hit>) returns (p: GeoPoint)
    requires TopOf(result, points, limit) && e in result
    ensures p in points && CStr(p.member) == e.key && HitOf(p) == e.value
  {
    hide Returned, Ordered, CStr;
    var s :| SortOf(s, points) && result == Returned(s[..Cutoff(limit, |s|)]);
    ReturnedHits(s[..Cutoff(limit, |s|)], e);
    p :| p in s[..Cutoff(limit, |s|)] && CStr(p.member) == e.key && HitOf(p) == e.value;
    assert p in multiset(s);
  }

  lemma AllReturned(result: PhpArray<Hit>, points: seq<GeoPoint>, limit: int, p: GeoPoint)
    requires TopOf(result, points, limit) && limit <= 0 && p in points
    ensures HasKey(result, CStr(p.member))
  {
    hide Returned, Ordered, CStr, HasKey;
    var s :| SortOf(s, points) && result == Returned(s[..Cutoff(limit, |s|)]);
    assert s[..|s|] == s;
    assert p in multiset(points);
    assert p in multiset(s);
    ReturnedKeys(s, CStr(p.member));
  }

  /** ssdb_geo_neighbours from the radius search on. */
  method GeoNeighbours(store: Store, key: string, q: Query, zscanLimit: nat, returnLimit: int)
    returns (defined: bool, result: PhpArray<Hit>)
    requires Storable(DbOf(store, key))
    ensures defined <==> RunDefined(q, DbOf(store, key), zscanLimit)
    ensures defined ==> TopOf(result, Search(q, DbOf(store, key), zscanLimit), returnLimit)
    ensures var db := DbOf(store, key);
      defined && zscanLimit >= |db| && (KnownComplete(q, db) || SameFound(Search(q, db, zscanLimit), NaiveSearch(q, db)))
      ==> Nearest(q, db, result, returnLimit)
  {
    hide Data, TopOf, RunDefined, Search, NaiveSearch, Storable, Nearest, KnownComplete, SameFound;
    var l;
    defined, l := Members(store, key, q, zscanLimit);
    result := [];
    if defined {
      result := Neighbours(l, returnLimit);
      ghost var db := DbOf(store, key);
      if KnownComplete(q, db) && zscanLimit >= |db| {
        KnownCompleteRefines(q, db, zscanLimit);
      }
      if SameFound(Search(q, db, zscanLimit), NaiveSearch(q, db)) && zscanLimit >= |db| {
        NearestFound(q, db, zscanLimit, result, returnLimit);
      }
    }
  }
}
