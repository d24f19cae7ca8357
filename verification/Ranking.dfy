// The end of ssdb_geo_neighbours: copy the found points to an array, sort it, and return the
// first return_limit of them as an array keyed by member.
module Ranking {
  import opened CStrings
  import opened Commands
  import opened Replies
  import opened Links
  import opened GeoList
  import opened GeoSearch

  /** ssdb_geo_point_sort_asc. */
  function Compare(a: GeoPoint, b: GeoPoint): int {
    if a.dist > b.dist then 1
    else if a.dist == b.dist then StrCmp(a.member, b.member)
    else -1
  }

  predicate Before(a: GeoPoint, b: GeoPoint) { Compare(a, b) <= 0 }

  /** The comparator is a total preorder: any two points compare, oppositely when swapped, and
      transitively; it calls equal exactly the points of equal distance and equal member. */
  lemma TotalPreorder(a: GeoPoint, b: GeoPoint, c: GeoPoint)
    ensures Compare(b, a) == -Compare(a, b)
    ensures Before(a, b) || Before(b, a)
    ensures Before(a, b) && Before(b, c) ==> Before(a, c)
    ensures Compare(a, b) == 0 <==> a.dist == b.dist && CStr(a.member) == CStr(b.member)
  {
    StrCmpSwap(a.member, b.member);
    StrCmpZero(a.member, b.member);
    if Before(a, b) && Before(b, c) && a.dist == c.dist {
      StrCmpTransitive(a.member, b.member, c.member);
    }
  }

  ghost predicate Ordered(s: seq<GeoPoint>) {
    forall i, j | 0 <= i < j < |s| :: Before(s[i], s[j])
  }

  ghost predicate SortOf(s: seq<GeoPoint>, t: seq<GeoPoint>) {
    multiset(s) == multiset(t) && Ordered(s)
  }

  // ---------- a sort, standing for libc's qsort ----------

  function Insert(p: GeoPoint, s: seq<GeoPoint>): seq<GeoPoint> {
    if s == [] || Before(p, s[0]) then [p] + s else [s[0]] + Insert(p, s[1..])
  }

  function Sort(s: seq<GeoPoint>): seq<GeoPoint> {
    if s == [] then [] else Insert(s[0], Sort(s[1..]))
  }

  lemma OrderedCons(p: GeoPoint, s: seq<GeoPoint>)
    ensures Ordered([p] + s) <==> Ordered(s) && forall x | x in s :: Before(p, x)
  {
    hide Before;
    var t := [p] + s;
    if Ordered(t) {
      forall i, j | 0 <= i < j < |s|
        ensures Before(s[i], s[j])
      {
        assert t[i + 1] == s[i] && t[j + 1] == s[j];
      }
      forall x | x in s
        ensures Before(p, x)
      {
        var j :| 0 <= j < |s| && s[j] == x;
        assert t[0] == p && t[j + 1] == x;
      }
    }
  }

  lemma {:induction false} InsertSorted(p: GeoPoint, s: seq<GeoPoint>)
    requires Ordered(s)
    ensures Ordered(Insert(p, s)) && multiset(Insert(p, s)) == multiset(s) + multiset{p}
  {
    hide Before, Ordered;
    OrderedCons(p, s);
    if s != [] {
      var rest := s[1..];
      assert s == [s[0]] + rest;
      OrderedCons(s[0], rest);
      if Before(p, s[0]) {
        forall x | x in s
          ensures Before(p, x)
        {
          TotalPreorder(p, s[0], x);
        }
      } else {
        InsertSorted(p, rest);
        TotalPreorder(p, s[0], p);
        forall x | x in Insert(p, rest)
          ensures Before(s[0], x)
        {
          assert x in multiset(Insert(p, rest));
        }
        OrderedCons(s[0], Insert(p, rest));
      }
    }
  }

  lemma {:induction false} SortSorts(s: seq<GeoPoint>)
    ensures SortOf(Sort(s), s)
  {
    if s != [] {
      SortSorts(s[1..]);
      InsertSorted(s[0], Sort(s[1..]));
      assert s == [s[0]] + s[1..];
    }
  }

  /** qsort: some ordered permutation of the array. */
  method Qsort(a: array<GeoPoint>)
    modifies a
    ensures SortOf(a[..], old(a[..]))
  {
    var s := Sort(a[..]);
    SortSorts(a[..]);
    assert |s| == |multiset(s)| == |multiset(a[..])| == a.Length;
    forall i | 0 <= i < a.Length {
      a[i] := s[i];
    }
    assert a[..] == s;
  }

  // ---------- what is returned ----------

  /** The three values returned for a member. */
  datatype Hit = Hit(latitude: real, longitude: real, distance: real)

  function HitOf(p: GeoPoint): Hit { Hit(p.latitude, p.longitude, p.dist) }

  /** add_assoc_zval for each point in order: the key is the member read as a C string. */
  function Returned(s: seq<GeoPoint>): PhpArray<Hit> {
    if s == [] then [] else Put(Returned(s[..|s| - 1]), CStr(s[|s| - 1].member), HitOf(s[|s| - 1]))
  }

  function Cutoff(limit: int, n: nat): nat { if limit <= 0 || limit > n then n else limit }

  /** How many of the first j points the loop has emitted. */
  function Emitted(limit: int, n: nat, j: nat): nat
    requires j <= n
  {
    if j < Cutoff(limit, n) then j else Cutoff(limit, n)
  }

  /** The copy of the list to an array. */
  method Copied(l: List<GeoPoint>) returns (a: array<GeoPoint>)
    requires l.Valid()
    ensures fresh(a) && a[..] == l.Contents()
  {
    hide Data;
    a := new GeoPoint[l.num](_ => GeoPoint("", 0.0, 0.0, 0.0));
    var n := l.head;
    var i := 0;
    while n != null
      invariant i <= |l.nodes| && n == if i < |l.nodes| then l.nodes[i] else null
      invariant a[..i] == l.Contents()[..i]
      decreases |l.nodes| - i
    {
      a[i] := n.data;
      n := n.next;
      i := i + 1;
    }
    assert a[..] == a[..i] && l.Contents() == l.Contents()[..i];
  }

  /** The loop over the sorted array. */
  method FirstOf(a: array<GeoPoint>, returnLimit: int) returns (result: PhpArray<Hit>)
    ensures result == Returned(a[..Cutoff(returnLimit, a.Length)])
  {
    hide Put, CStr;
    result := [];
    for j := 0 to a.Length
      invariant result == Returned(a[..Emitted(returnLimit, a.Length, j)])
    {
      if j < (if returnLimit <= 0 then a.Length else returnLimit) {
        assert a[..j + 1][..j] == a[..j];
        result := Put(result, CStr(a[j].member), Hit(a[j].latitude, a[j].longitude, a[j].dist));
      }
    }
  }

  /** The result is made of the first points, up to the limit, of some ordered permutation of the points. */
  ghost predicate TopOf(result: PhpArray<Hit>, points: seq<GeoPoint>, limit: int) {
    exists s :: SortOf(s, points) && result == Returned(s[..Cutoff(limit, |s|)])
  }

  /** The copy, the sort and the loop over the sorted array. */
  method Neighbours(l: List<GeoPoint>, returnLimit: int) returns (result: PhpArray<Hit>)
    requires l.Valid()
    ensures TopOf(result, l.Contents(), returnLimit)
  {
    hide Data, Returned, Ordered;
    var a := Copied(l);
    Qsort(a);
    result := FirstOf(a, returnLimit);
    ghost var s := a[..];
    assert s[..Cutoff(returnLimit, |s|)] == a[..Cutoff(returnLimit, a.Length)];
    var freed := l.Destroy();
  }

  // ---------- what the result means ----------

  /** The points behind a prefix of an ordered permutation are no nearer than those in it. */
  lemma PrefixNearest(points: seq<GeoPoint>, sorted: seq<GeoPoint>, k: nat, p: GeoPoint, r: GeoPoint)
    requires SortOf(sorted, points)
    requires k <= |sorted| && p in points && p !in sorted[..k] && r in sorted[..k]
    ensures Before(r, p) && r.dist <= p.dist
  {
    hide StrCmp;
    assert p in multiset(points);
    assert p in multiset(sorted);
    assert p in sorted;
    var j :| 0 <= j < |sorted| && sorted[j] == p;
    var i :| 0 <= i < k && sorted[..k][i] == r;
    forall m | 0 <= m < k
      ensures sorted[m] in sorted[..k]
    {
      assert sorted[..k][m] == sorted[m];
    }
  }

  ghost predicate HasKey(m: PhpArray<Hit>, key: string) { exists e :: e in m && e.key == key }

  lemma PutKeys(m: PhpArray<Hit>, key: string, value: Hit, k: string)
    ensures HasKey(Put(m, key, value), k) <==> HasKey(m, k) || k == key
  {
    var i := Find(m, key);
    var r := Put(m, key, value);
    if i < |m| {
      forall j | 0 <= j < |m|
        ensures r[j].key == m[j].key
      {
      }
      if HasKey(m, k) {
        var e :| e in m && e.key == k;
        var j :| 0 <= j < |m| && m[j] == e;
        assert r[j] in r;
      }
      if HasKey(r, k) {
        var e :| e in r && e.key == k;
        var j :| 0 <= j < |r| && r[j] == e;
        assert m[j] in m;
      }
      assert r[i] in r;
    } else {
      assert r == m + [Pair(key, value)];
      if HasKey(m, k) {
        var e :| e in m && e.key == k;
        assert e in r;
      }
      assert r[|m|] in r;
    }
  }

  /** The keys returned are the members of the points, each once. */
  lemma {:induction false} ReturnedKeys(s: seq<GeoPoint>, key: string)
    ensures HasKey(Returned(s), key) <==> exists p :: p in s && CStr(p.member) == key
    ensures Distinct(Returned(s)) && |Returned(s)| <= |s|
  {
    if s != [] {
      var init, last := s[..|s| - 1], s[|s| - 1];
      assert s == init + [last];
      ReturnedKeys(init, key);
      PutKeys(Returned(init), CStr(last.member), HitOf(last), key);
      PutDistinct(Returned(init), CStr(last.member), HitOf(last));
    }
  }

  /** Members of points at different places differ as C strings. */
  ghost predicate DistinctMembers(s: seq<GeoPoint>) {
    forall i, j | 0 <= i < j < |s| :: CStr(s[i].member) != CStr(s[j].member)
  }

  /** Of k points, k are returned exactly when no two have the same member. */
  lemma {:induction false} ReturnedAll(s: seq<GeoPoint>)
    ensures |Returned(s)| == |s| <==> DistinctMembers(s)
  {
    if s != [] {
      var init, last := s[..|s| - 1], s[|s| - 1];
      assert s == init + [last];
      ReturnedAll(init);
      if Find(Returned(init), CStr(last.member)) < |Returned(init)| {
        RepeatedMember(init, last);
      } else {
        NewMember(init, last);
      }
    }
  }

  lemma RepeatedMember(init: seq<GeoPoint>, last: GeoPoint)
    requires Find(Returned(init), CStr(last.member)) < |Returned(init)|
    ensures !DistinctMembers(init + [last]) && |Returned(init)| <= |init|
  {
    hide Returned, CStr;
    ReturnedKeys(init, CStr(last.member));
    var m := Returned(init);
    assert m[Find(m, CStr(last.member))] in m;
    var p :| p in init && CStr(p.member) == CStr(last.member);
    var j :| 0 <= j < |init| && init[j] == p;
    assert (init + [last])[j] == p && (init + [last])[|init|] == last;
  }

  lemma NewMember(init: seq<GeoPoint>, last: GeoPoint)
    requires Find(Returned(init), CStr(last.member)) == |Returned(init)|
    ensures DistinctMembers(init + [last]) <==> DistinctMembers(init)
  {
    var s := init + [last];
    ReturnedKeys(init, CStr(last.member));
    forall i | 0 <= i < |init|
      ensures CStr(init[i].member) != CStr(last.member)
    {
      assert init[i] in init;
    }
    if DistinctMembers(s) {
      forall i, j | 0 <= i < j < |init|
        ensures CStr(init[i].member) != CStr(init[j].member)
      {
        assert s[i] == init[i] && s[j] == init[j];
      }
    }
  }

  /** Every hit returned is that of a point whose member is its key. */
  lemma {:induction false} ReturnedHits(s: seq<GeoPoint>, e: Pair<Hit>)
    requires e in Returned(s)
    ensures exists p :: p in s && CStr(p.member) == e.key && HitOf(p) == e.value
  {
    var init, last := s[..|s| - 1], s[|s| - 1];
    assert s == init + [last];
    if e in Returned(init) {
      ReturnedHits(init, e);
    }
  }

  /** The entries come nearest first, and equally near ones by name. */
  ghost predicate NearestFirst(m: PhpArray<Hit>) {
    forall i, j | 0 <= i < j < |m| ::
      m[i].value.distance < m[j].value.distance
      || (m[i].value.distance == m[j].value.distance && NameBefore(m[i].key, m[j].key))
  }

  /** A point with another name than those before it comes after their entries. */
  lemma EntryBefore(s: seq<GeoPoint>, e: Pair<Hit>, last: GeoPoint)
    requires e in Returned(s) && e.key != CStr(last.member) && forall p | p in s :: Before(p, last)
    ensures e.value.distance < last.dist || (e.value.distance == last.dist && NameBefore(e.key, CStr(last.member)))
  {
    hide Returned, CStr, StrCmp, NameBefore;
    ReturnedHits(s, e);
    var p :| p in s && CStr(p.member) == e.key && HitOf(p) == e.value;
    StrCmpOrder(p.member, last.member);
    StrCmpZero(p.member, last.member);
  }

  /** Points of different names, in order, give entries in order. */
  lemma {:induction false} ReturnedInOrder(s: seq<GeoPoint>)
    requires Ordered(s)
    requires forall a: GeoPoint, b: GeoPoint | a in s && b in s && CStr(a.member) == CStr(b.member) :: a == b
    ensures NearestFirst(Returned(s))
  {
    hide CStr, Before, Put, HitOf, NearestFirst;
    if s == [] {
      assert NearestFirst([]) by { NoneInOrder(); }
    } else {
      var init, last := s[..|s| - 1], s[|s| - 1];
      assert s == init + [last];
      ReturnedInOrder(init);
      if HasKey(Returned(init), CStr(last.member)) {
        SameEntry(init, last);
      } else {
        NewEntry(init, last);
      }
    }
  }

  lemma NoneInOrder()
    ensures NearestFirst([])
  {
  }

  lemma NewEntry(init: seq<GeoPoint>, last: GeoPoint)
    requires NearestFirst(Returned(init)) && !HasKey(Returned(init), CStr(last.member))
    requires forall p | p in init :: Before(p, last)
    ensures NearestFirst(Returned(init + [last]))
  {
    hide CStr, Before, NameBefore, Returned, HitOf, Put;
    var m, key := Returned(init), CStr(last.member);
    assert Returned(init + [last]) == m + [Pair(key, HitOf(last))] by {
      ReturnedKeys(init, key);
      PutAt(m, key, HitOf(last));
      AppendReturned(init, last);
    }
    forall i | 0 <= i < |m|
      ensures m[i].value.distance < last.dist || (m[i].value.distance == last.dist && NameBefore(m[i].key, key))
    {
      assert m[i] in m;
      EntryBefore(init, m[i], last);
    }
    HitDistance(last);
  }

  lemma AppendReturned(s: seq<GeoPoint>, last: GeoPoint)
    ensures Returned(s + [last]) == Put(Returned(s), CStr(last.member), HitOf(last))
  {
    assert (s + [last])[..|s|] == s;
  }

  lemma HitDistance(p: GeoPoint)
    ensures HitOf(p).distance == p.dist
  {
  }

  /** A point that is there already changes nothing. */
  lemma SameEntry(s: seq<GeoPoint>, last: GeoPoint)
    requires HasKey(Returned(s), CStr(last.member))
    requires forall p | p in s && CStr(p.member) == CStr(last.member) :: p == last
    ensures Returned(s + [last]) == Returned(s)
  {
    hide CStr, HitOf, Distinct, Returned;
    AppendReturned(s, last);
    var m, key := Returned(s), CStr(last.member);
    ReturnedKeys(s, key);
    PutAt(m, key, HitOf(last));
    forall i | 0 <= i < |m| && m[i].key == key
      ensures m[i] == Pair(key, HitOf(last))
    {
      assert m[i] in m;
      ReturnedHits(s, m[i]);
    }
    assert Put(m, key, HitOf(last)) == m;
  }

  /** Where the search agrees with the naive one, no member left out is nearer than a member returned. */
  lemma NothingNearerLeftOut(q: Query, db: Zset, zscanLimit: nat, result: PhpArray<Hit>, limit: int,
                             e: Pair<Hit>, p: GeoPoint)
    requires SameFound(Search(q, db, zscanLimit), NaiveSearch(q, db)) && TopOf(result, Search(q, db, zscanLimit), limit)
    requires e in result && p in NaiveSearch(q, db) && !HasKey(result, CStr(p.member))
    ensures e.value.distance <= p.dist
  {
    hide Search, NaiveSearch, Returned, CStr, SortOf;
    var points := Search(q, db, zscanLimit);
    var s :| SortOf(s, points) && result == Returned(s[..Cutoff(limit, |s|)]);
    var k := Cutoff(limit, |s|);
    ReturnedHits(s[..k], e);
    var r: GeoPoint :| r in s[..k] && CStr(r.member) == e.key && HitOf(r) == e.value;
    ReturnedKeys(s[..k], CStr(p.member));
    assert p in points;
    PrefixNearest(points, s, k, p, r);
  }

  /** Without a return limit the members returned are exactly those the naive search finds. */
  lemma WholeResult(q: Query, db: Zset, zscanLimit: nat, result: PhpArray<Hit>, key: string)
    requires SameFound(Search(q, db, zscanLimit), NaiveSearch(q, db)) && TopOf(result, Search(q, db, zscanLimit), 0)
    ensures HasKey(result, key) <==> exists p :: p in NaiveSearch(q, db) && CStr(p.member) == key
  {
    hide Search, NaiveSearch, Returned, CStr;
    var found, naive := Search(q, db, zscanLimit), NaiveSearch(q, db);
    var s :| SortOf(s, found) && result == Returned(s[..Cutoff(0, |s|)]);
    assert s[..|s|] == s;
    ReturnedKeys(s, key);
    forall p
      ensures p in s <==> p in naive
    {
      assert p in multiset(s) <==> p in multiset(found);
    }
  }
}
