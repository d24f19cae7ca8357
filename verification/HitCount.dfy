// How many hits a search returns: a point listed more than once takes up more than one place below
// the limit, and the array keeps one entry of it.
module HitCount {
  import opened CStrings
  import opened Commands
  import opened Replies
  import opened GeoSearch
  import opened Ranking

  // ---------- ordered sequences ----------

  /** Points that compare equal are the same point: no two have the same name. */
  ghost predicate NamesApart(s: seq<GeoPoint>) {
    forall i, j | 0 <= i < |s| && 0 <= j < |s| && CStr(s[i].member) == CStr(s[j].member) :: s[i] == s[j]
  }

  ghost predicate NoRepeat(s: seq<GeoPoint>) {
    forall i, j | 0 <= i < j < |s| :: s[i] != s[j]
  }

  lemma LastIsLargest(s: seq<GeoPoint>, p: GeoPoint)
    requires Ordered(s) && p in s
    ensures Before(p, s[|s| - 1])
  {
    hide Compare;
    var i :| 0 <= i < |s| && s[i] == p;
    TotalPreorder(p, p, p);
  }

  lemma LastsAgree(a: seq<GeoPoint>, b: seq<GeoPoint>)
    requires Ordered(a) && Ordered(b) && multiset(a) == multiset(b) && NamesApart(a) && a != [] && b != []
    ensures a[|a| - 1] == b[|b| - 1]
  {
    hide Ordered, StrCmp, CStr;
    var x, y := a[|a| - 1], b[|b| - 1];
    assert x in multiset(b) && y in multiset(a);
    LastIsLargest(b, x);
    LastIsLargest(a, y);
    TotalPreorder(x, y, x);
    var i :| 0 <= i < |a| && a[i] == y;
    assert CStr(a[i].member) == CStr(a[|a| - 1].member);
  }

  lemma Prefix(a: seq<GeoPoint>, n: nat)
    requires n <= |a|
    ensures Ordered(a) ==> Ordered(a[..n])
    ensures NamesApart(a) ==> NamesApart(a[..n])
  {
    hide Before, CStr;
  }

  lemma WithoutLast(a: seq<GeoPoint>)
    requires a != []
    ensures a == a[..|a| - 1] + [a[|a| - 1]]
    ensures multiset(a[..|a| - 1]) == multiset(a) - multiset{a[|a| - 1]}
  {
    assert a == a[..|a| - 1] + [a[|a| - 1]];
  }

  /** With names apart, there is one ordered permutation. */
  lemma {:induction false} OneOrder(a: seq<GeoPoint>, b: seq<GeoPoint>)
    requires Ordered(a) && Ordered(b) && multiset(a) == multiset(b) && NamesApart(a)
    ensures a == b
    decreases |a|
  {
    hide Ordered, NamesApart;
    assert |a| == |multiset(a)| == |multiset(b)| == |b|;
    if a != [] {
      LastsAgree(a, b);
      WithoutLast(a);
      WithoutLast(b);
      Prefix(a, |a| - 1);
      Prefix(b, |b| - 1);
      OneOrder(a[..|a| - 1], b[..|b| - 1]);
    }
  }

  // ---------- repeating the points ----------

  function Copies(p: GeoPoint, t: nat): (s: seq<GeoPoint>)
    ensures |s| == t && forall i | 0 <= i < t :: s[i] == p
  {
    seq(t, i => p)
  }

  /** Each point of the ranking as often as it is listed. */
  function Spread(ranked: seq<GeoPoint>, listed: multiset<GeoPoint>): seq<GeoPoint> {
    if ranked == [] then [] else
      Spread(ranked[..|ranked| - 1], listed) + Copies(ranked[|ranked| - 1], listed[ranked[|ranked| - 1]])
  }

  /** The places a ranking takes up. */
  function Places(ranked: seq<GeoPoint>, listed: multiset<GeoPoint>): nat {
    if ranked == [] then 0 else Places(ranked[..|ranked| - 1], listed) + listed[ranked[|ranked| - 1]]
  }

  lemma {:induction false} SpreadPlaces(ranked: seq<GeoPoint>, listed: multiset<GeoPoint>)
    ensures |Spread(ranked, listed)| == Places(ranked, listed)
  {
    if ranked != [] {
      SpreadPlaces(ranked[..|ranked| - 1], listed);
    }
  }

  lemma {:induction false} SpreadHas(ranked: seq<GeoPoint>, listed: multiset<GeoPoint>, p: GeoPoint)
    ensures p in Spread(ranked, listed) <==> p in ranked && listed[p] > 0
  {
    if ranked != [] {
      var init, last := ranked[..|ranked| - 1], ranked[|ranked| - 1];
      assert ranked == init + [last];
      SpreadHas(init, listed, p);
      var c := Copies(last, listed[last]);
      if listed[last] > 0 {
        assert c[0] == last;
      }
      assert p in c <==> p == last && listed[last] > 0;
    }
  }

  lemma {:induction false} SpreadOrdered(ranked: seq<GeoPoint>, listed: multiset<GeoPoint>)
    requires Ordered(ranked)
    ensures Ordered(Spread(ranked, listed))
  {
    hide Before;
    if ranked != [] {
      var init, last := ranked[..|ranked| - 1], ranked[|ranked| - 1];
      assert ranked == init + [last];
      SpreadOrdered(init, listed);
      var s, c := Spread(init, listed), Copies(last, listed[last]);
      forall i | 0 <= i < |s|
        ensures Before(s[i], last)
      {
        SpreadHas(init, listed, s[i]);
        LastIsLargest(ranked, s[i]);
      }
      TotalPreorder(last, last, last);
      OrderedEnd(s, c, last);
    }
  }

  lemma OrderedEnd(s: seq<GeoPoint>, c: seq<GeoPoint>, p: GeoPoint)
    requires Ordered(s) && (forall i | 0 <= i < |s| :: Before(s[i], p)) && Before(p, p)
    requires forall i | 0 <= i < |c| :: c[i] == p
    ensures Ordered(s + c)
  {
    hide Before;
    var t := s + c;
    forall i, j | 0 <= i < j < |t|
      ensures Before(t[i], t[j])
    {
      if j >= |s| {
        assert t[j] == c[j - |s|];
      }
      if i >= |s| {
        assert t[i] == c[i - |s|];
      }
    }
  }

  lemma {:induction false} CopiesCount(p: GeoPoint, t: nat)
    ensures multiset(Copies(p, t)) == multiset{}[p := t]
  {
    if t > 0 {
      CopiesCount(p, t - 1);
      assert Copies(p, t) == Copies(p, t - 1) + [p];
    }
  }

  lemma {:induction false} SpreadCount(ranked: seq<GeoPoint>, listed: multiset<GeoPoint>, p: GeoPoint)
    requires NoRepeat(ranked)
    ensures multiset(Spread(ranked, listed))[p] == if p in ranked then listed[p] else 0
  {
    if ranked != [] {
      var init, last := ranked[..|ranked| - 1], ranked[|ranked| - 1];
      assert ranked == init + [last];
      SpreadCount(init, listed, p);
      CopiesCount(last, listed[last]);
      if p == last {
        assert p !in init;
      }
    }
  }

  /** The sorted list is the ranking with its points repeated. */
  lemma SortedIsSpread(s: seq<GeoPoint>, found: seq<GeoPoint>, ranked: seq<GeoPoint>)
    requires SortOf(s, found) && Ordered(ranked) && NoRepeat(ranked) && NamesApart(ranked)
    requires forall p :: p in found <==> p in ranked
    ensures s == Spread(ranked, multiset(found))
  {
    hide Ordered, Spread;
    var t := Spread(ranked, multiset(found));
    SpreadOrdered(ranked, multiset(found));
    forall p
      ensures multiset(t)[p] == multiset(found)[p]
    {
      SpreadCount(ranked, multiset(found), p);
      assert p in found <==> p in multiset(found);
    }
    assert multiset(t) == multiset(found);
    SpreadNames(ranked, multiset(found));
    OneOrder(t, s);
  }

  lemma SpreadNames(ranked: seq<GeoPoint>, listed: multiset<GeoPoint>)
    requires NamesApart(ranked)
    ensures NamesApart(Spread(ranked, listed))
  {
    hide Spread, CStr;
    var t := Spread(ranked, listed);
    forall i, j | 0 <= i < |t| && 0 <= j < |t| && CStr(t[i].member) == CStr(t[j].member)
      ensures t[i] == t[j]
    {
      SpreadHas(ranked, listed, t[i]);
      SpreadHas(ranked, listed, t[j]);
    }
  }

  // ---------- counting the entries ----------

  /** How many points of the ranking the first c places reach. */
  function Covered(ranked: seq<GeoPoint>, listed: multiset<GeoPoint>, c: nat): (n: nat)
    ensures n <= |ranked|
  {
    if ranked == [] then 0
    else if c <= Places(ranked[..|ranked| - 1], listed) then Covered(ranked[..|ranked| - 1], listed, c)
    else |ranked|
  }

  lemma {:induction false} ReturnedCopies(s: seq<GeoPoint>, p: GeoPoint, t: nat)
    ensures |Returned(s + Copies(p, t))| ==
      |Returned(s)| + if t > 0 && !HasKey(Returned(s), CStr(p.member)) then 1 else 0
    ensures t > 0 ==> HasKey(Returned(s + Copies(p, t)), CStr(p.member))
  {
    hide CStr, HasKey;
    if t == 0 {
      assert s + Copies(p, 0) == s;
    } else {
      var init := s + Copies(p, t - 1);
      ReturnedCopies(s, p, t - 1);
      assert s + Copies(p, t) == init + [p];
      assert (init + [p])[..|init|] == init;
      PutCount(Returned(init), CStr(p.member), HitOf(p));
      PutKeys(Returned(init), CStr(p.member), HitOf(p), CStr(p.member));
    }
  }

  lemma PutCount(m: PhpArray<Hit>, key: string, value: Hit)
    ensures |Put(m, key, value)| == |m| + if HasKey(m, key) then 0 else 1
  {
    var i := Find(m, key);
    if i < |m| {
      assert m[i] in m;
    }
  }

  /** Every point listed, the first c places of the spread ranking give one entry for each point they
      reach. */
  lemma {:induction false} EntriesCount(ranked: seq<GeoPoint>, listed: multiset<GeoPoint>, c: nat)
    requires NoRepeat(ranked) && NamesApart(ranked) && (forall p | p in ranked :: listed[p] > 0)
    requires c <= |Spread(ranked, listed)|
    ensures |Returned(Spread(ranked, listed)[..c])| == Covered(ranked, listed, c)
    decreases |ranked|
  {
    hide CStr, Returned, HasKey;
    if ranked == [] {
      assert Returned([]) == [] by { ReturnedNone(); }
    } else {
      var init, last := ranked[..|ranked| - 1], ranked[|ranked| - 1];
      assert ranked == init + [last];
      var s := Spread(init, listed);
      SpreadPlaces(init, listed);
      EntriesCount(init, listed, if c <= |s| then c else |s|);
      if c <= |s| {
        assert Spread(ranked, listed)[..c] == s[..c];
      } else {
        assert s[..|s|] == s;
        AllCovered(init, listed);
        CutInLast(ranked, listed, c);
        EntriesOfLast(init, last, listed, c - |s|);
      }
    }
  }

  lemma CutInLast(ranked: seq<GeoPoint>, listed: multiset<GeoPoint>, c: nat)
    requires ranked != [] && |Spread(ranked[..|ranked| - 1], listed)| < c <= |Spread(ranked, listed)|
    ensures var s := Spread(ranked[..|ranked| - 1], listed);
      Spread(ranked, listed)[..c] == s + Copies(ranked[|ranked| - 1], c - |s|)
  {
  }

  lemma EntriesOfLast(init: seq<GeoPoint>, last: GeoPoint, listed: multiset<GeoPoint>, t: nat)
    requires NoRepeat(init + [last]) && NamesApart(init + [last]) && t > 0
    ensures |Returned(Spread(init, listed) + Copies(last, t))| == |Returned(Spread(init, listed))| + 1
  {
    hide CStr, Returned, HasKey, Spread, NoRepeat, NamesApart;
    LastNew(init, listed, last);
    ReturnedCopies(Spread(init, listed), last, t);
  }

  lemma ReturnedNone()
    ensures Returned([]) == []
  {
  }

  lemma AllCovered(ranked: seq<GeoPoint>, listed: multiset<GeoPoint>)
    requires forall p | p in ranked :: listed[p] > 0
    ensures Covered(ranked, listed, Places(ranked, listed)) == |ranked|
  {
    if ranked != [] {
      assert ranked[|ranked| - 1] in ranked;
    }
  }

  lemma LastNew(init: seq<GeoPoint>, listed: multiset<GeoPoint>, last: GeoPoint)
    requires NoRepeat(init + [last]) && NamesApart(init + [last])
    ensures !HasKey(Returned(Spread(init, listed)), CStr(last.member))
  {
    hide CStr, Returned, HasKey, Spread;
    var all := init + [last];
    ReturnedKeys(Spread(init, listed), CStr(last.member));
    assert all[|init|] == last;
    forall p | p in Spread(init, listed)
      ensures CStr(p.member) != CStr(last.member)
    {
      SpreadHas(init, listed, p);
      var i :| 0 <= i < |init| && init[i] == p;
      assert all[i] == p;
    }
  }

  /** More than r points are reached exactly when the first r take up less than c places. */
  lemma {:induction false} CoveredAbove(ranked: seq<GeoPoint>, listed: multiset<GeoPoint>, c: nat, r: nat)
    requires r < |ranked|
    ensures Covered(ranked, listed, c) > r <==> Places(ranked[..r], listed) < c
    decreases |ranked|
  {
    var init := ranked[..|ranked| - 1];
    if r < |init| {
      CoveredAbove(init, listed, c, r);
      assert init[..r] == ranked[..r];
      PlacesMono(ranked, listed, r, |init|);
    } else {
      assert ranked[..r] == init;
    }
  }

  lemma {:induction false} PlacesMono(ranked: seq<GeoPoint>, listed: multiset<GeoPoint>, a: nat, b: nat)
    requires a <= b <= |ranked|
    ensures Places(ranked[..a], listed) <= Places(ranked[..b], listed)
    ensures (forall p | p in ranked :: listed[p] > 0) ==>
      Places(ranked[..a], listed) + (b - a) <= Places(ranked[..b], listed)
    decreases b
  {
    if a < b {
      PlacesMono(ranked, listed, a, b - 1);
      assert ranked[..b][..b - 1] == ranked[..b - 1];
      assert ranked[b - 1] in ranked;
    }
  }

  function Min(a: nat, b: nat): nat { if a < b then a else b }

  /** What a search limited to `limit` should return: that many, or all there are; 0 or less is no limit. */
  function Due(limit: int, n: nat): nat { if limit <= 0 then n else Min(limit, n) }

  /** The points reached under a limit, out of all the places there are. */
  function Reached(ranked: seq<GeoPoint>, listed: multiset<GeoPoint>, limit: int): nat {
    Covered(ranked, listed, Cutoff(limit, Places(ranked, listed)))
  }

  /** Never more than are due, and as many exactly when there is no limit or those before the last one
      due leave it a place. */
  lemma ReachedExactly(ranked: seq<GeoPoint>, listed: multiset<GeoPoint>, limit: int)
    requires forall p | p in ranked :: listed[p] > 0
    ensures Reached(ranked, listed, limit) <= Due(limit, |ranked|)
    ensures Reached(ranked, listed, limit) == Due(limit, |ranked|) <==>
      limit <= 0 || ranked == [] || Places(ranked[..Due(limit, |ranked|) - 1], listed) < limit
    ensures ranked != [] ==> Reached(ranked, listed, limit) > 0
  {
    hide Covered, Places;
    var n := |ranked|;
    assert ranked[..n] == ranked && Places([], listed) == 0 by { NoPlaces(listed); }
    PlacesMono(ranked, listed, 0, n);
    assert ranked[..0] == [];
    var c := Cutoff(limit, Places(ranked, listed));
    if n > 0 {
      CoveredAbove(ranked, listed, c, 0);
      if limit <= 0 {
        AllCovered(ranked, listed);
      } else {
        var w := Due(limit, n);
        CoveredAbove(ranked, listed, c, w - 1);
        PlacesMono(ranked, listed, w - 1, n);
        if w < n {
          CoveredAbove(ranked, listed, c, w);
          PlacesMono(ranked, listed, 0, w);
        }
      }
    }
  }

  lemma NoPlaces(listed: multiset<GeoPoint>)
    ensures Places([], listed) == 0
  {
  }

  /** As many as are due under every limit exactly when all but the last are listed once. */
  lemma AlwaysDue(ranked: seq<GeoPoint>, listed: multiset<GeoPoint>)
    requires forall p | p in ranked :: listed[p] > 0
    ensures (forall limit: int :: Reached(ranked, listed, limit) == Due(limit, |ranked|)) <==>
      forall i | 0 <= i < |ranked| - 1 :: listed[ranked[i]] == 1
  {
    hide Reached, Places;
    if forall i | 0 <= i < |ranked| - 1 :: listed[ranked[i]] == 1 {
      forall limit: int
        ensures Reached(ranked, listed, limit) == Due(limit, |ranked|)
      {
        ReachedExactly(ranked, listed, limit);
        if limit > 0 && ranked != [] {
          OnePlaceEach(ranked, listed, Due(limit, |ranked|) - 1);
        }
      }
    } else {
      var i :| 0 <= i < |ranked| - 1 && listed[ranked[i]] != 1;
      assert ranked[i] in ranked;
      ReachedExactly(ranked, listed, i + 2);
      TwoPlaces(ranked, listed, i);
    }
  }

  lemma {:induction false} OnePlaceEach(ranked: seq<GeoPoint>, listed: multiset<GeoPoint>, r: nat)
    requires r <= |ranked| && forall i | 0 <= i < r :: listed[ranked[i]] == 1
    ensures Places(ranked[..r], listed) == r
  {
    if r > 0 {
      OnePlaceEach(ranked, listed, r - 1);
      assert ranked[..r][..r - 1] == ranked[..r - 1];
    }
  }

  lemma TwoPlaces(ranked: seq<GeoPoint>, listed: multiset<GeoPoint>, i: nat)
    requires i < |ranked| && listed[ranked[i]] >= 2 && forall p | p in ranked :: listed[p] > 0
    ensures Places(ranked[..i + 1], listed) >= i + 2
  {
    PlacesMono(ranked, listed, 0, i);
    assert ranked[..i + 1][..i] == ranked[..i] && ranked[..0] == [];
  }
}
