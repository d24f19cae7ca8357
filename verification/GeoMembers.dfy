// ssdb_geo_member_box and ssdb_geo_members: the search as the C code runs it, over the wire and
// on linked lists, proved to compute GeoSearch.Search.
module GeoMembers {
  import opened Decimal
  import opened Wire
  import opened Links
  import opened Responses
  import opened SockRead
  import opened Commands
  import opened GeoList
  import opened Arith
  import opened Geohash
  import opened GeoRadius
  import opened GeoIndex
  import opened GeoSearch

  // ---------- the server ----------

  type Store = map<string, Zset>

  /** The zscan reply: member and score of each element. */
  function EntryReply(es: Zset): seq<string> {
    if es == [] then [] else EntryReply(es[..|es| - 1]) + [es[|es| - 1].member, ToText(es[|es| - 1].score)]
  }

  function NonNegative(n: int): nat { if n < 0 then 0 else n }

  /** The server's answer to a zscan command; anything else is refused. */
  function Serve(store: Store, request: string): string {
    match Unframe(request)
    case Frames(bs) =>
      if |bs| == 6 && bs[0] == "zscan" && bs[2] == "" then
        var db := if bs[1] in store then store[bs[1]] else [];
        Message(["ok"] + EntryReply(Zscan(db, NonNegative(Atoi(bs[3])), NonNegative(Atoi(bs[4])), NonNegative(Atoi(bs[5])))))
      else Message(["client_error"])
    case Malformed => Message(["client_error"])
  }

  function DbOf(store: Store, key: string): Zset { if key in store then store[key] else [] }

  /** Members short enough for the wire, scores a 64-bit integer. */
  ghost predicate Storable(db: Zset) {
    forall e | e in db :: Sized(e.member) && e.score < Pow2(63)
  }

  lemma {:induction false} EntryReplyShape(es: Zset)
    ensures |EntryReply(es)| == 2 * |es|
    ensures forall k | 0 <= k < |es| ::
      EntryReply(es)[2 * k] == es[k].member && EntryReply(es)[2 * k + 1] == ToText(es[k].score)
  {
    if es != [] {
      EntryReplyShape(es[..|es| - 1]);
    }
  }

  lemma AtoiOfDec(n: nat)
    ensures Atoi(ToText(n)) == n
  {
    AtoiDec(n, "");
    ConcatEmpty(ToText(n));
  }

  lemma ServeZscan(store: Store, key: string, lo: nat, hi: nat, limit: nat)
    ensures Serve(store, Message(["zscan", key, "", ToText(lo), ToText(hi), ToText(limit)]))
         == Message(["ok"] + EntryReply(Zscan(DbOf(store, key), lo, hi, limit)))
  {
    UnframeMessage(["zscan", key, "", ToText(lo), ToText(hi), ToText(limit)]);
    AtoiOfDec(lo);
    AtoiOfDec(hi);
    AtoiOfDec(limit);
  }

  lemma ZscanHas(db: Zset, lo: nat, hi: nat, limit: nat, e: Entry)
    requires e in Zscan(db, lo, hi, limit)
    ensures e in db
  {
    InRangeHas(db, lo, hi, e);
  }

  lemma ReplySized(db: Zset, lo: nat, hi: nat, limit: nat)
    requires Storable(db)
    ensures AllSized(EntryReply(Zscan(db, lo, hi, limit)))
  {
    hide EntryReply, Zscan, ToText, Sized;
    var es := Zscan(db, lo, hi, limit);
    EntryReplyShape(es);
    forall b | b in EntryReply(es)
      ensures Sized(b)
    {
      var i :| 0 <= i < |EntryReply(es)| && EntryReply(es)[i] == b;
      var k := i / 2;
      ZscanHas(db, lo, hi, limit, es[k]);
      assert es[k] in db;
      ScoreSized(es[k].score);
      assert i == 2 * k || i == 2 * k + 1;
    }
  }

  lemma ScoreSized(n: nat)
    requires n < Pow2(63)
    ensures Sized(ToText(n))
  {
    Pow2BelowPow10(63);
    DecLength(n, 63);
  }

  // ---------- ssdb_geo_member_box ----------

  /** The uint64_t that atoll's result is passed on as. */
  function ScoreBits(text: string): (n: nat)
    ensures n < Pow2(64)
  {
    Atoi(text) % Pow2(64)
  }

  /** A number in the score block, with blanks or a sign before it and anything behind it, counts as its
      two's complement. */
  lemma ScoreSigned(blanks: string, sign: string, n: nat, rest: string)
    requires Blanks(blanks) && SignText(sign) && NoDigit(rest) && n < Pow2(63)
    ensures ScoreBits(blanks + sign + ToText(n) + rest) == if sign == "-" && n > 0 then Pow2(64) - n else n
  {
    hide Pow2, Atoi, ToText;
    AtoiText(blanks, sign, n, rest);
    Pow2Mono(63, 64);
    if sign == "-" && n > 0 {
      QuotientUnique(0 - n, Pow2(64), -1, Pow2(64) - n);
    } else {
      QuotientUnique(n, Pow2(64), 0, n);
    }
  }

  /** The point made of a member block and the score block after it. */
  function PointAt(ct: CoordType, member: string, text: string): GeoPoint {
    GeoPoint(member, ScoreLatitude(ct, ScoreBits(text)), ScoreLongitude(ct, ScoreBits(text)), 0.0)
  }

  /** The first k points of a reply. */
  function PointsIn(ct: CoordType, blocks: seq<string>, k: nat): seq<GeoPoint>
    requires 2 * k <= |blocks|
  {
    if k == 0 then [] else PointsIn(ct, blocks, k - 1) + [PointAt(ct, blocks[2 * k - 2], blocks[2 * k - 1])]
  }

  lemma {:induction false} PointsOfReply(ct: CoordType, es: Zset, k: nat)
    requires k <= |es| && forall e | e in es :: e.score < Pow2(63)
    ensures |EntryReply(es)| == 2 * |es|
    ensures PointsIn(ct, EntryReply(es), k) == PointsOf(ct, es)[..k]
  {
    hide PointOf, PointAt, ToText, EntryReply, PointsOf;
    EntryReplyShape(es);
    if k > 0 {
      PointsOfReply(ct, es, k - 1);
      ReplyPair(ct, es, k - 1);
      TakeNext(PointsOf(ct, es), k);
    }
  }

  lemma ReplyPair(ct: CoordType, es: Zset, i: nat)
    requires i < |es| && forall e | e in es :: e.score < Pow2(63)
    ensures |EntryReply(es)| == 2 * |es|
    ensures PointAt(ct, EntryReply(es)[2 * i], EntryReply(es)[2 * i + 1]) == PointOf(ct, es[i])
  {
    hide PointOf, PointAt, ToText, EntryReply;
    EntryReplyShape(es);
    assert es[i] in es;
    PointBack(ct, es[i]);
  }

  lemma PointBack(ct: CoordType, e: Entry)
    requires e.score < Pow2(63)
    ensures PointAt(ct, e.member, ToText(e.score)) == PointOf(ct, e)
  {
    ScoreBack(e.score);
  }

  lemma TakeNext<T>(s: seq<T>, k: nat)
    requires 0 < k <= |s|
    ensures s[..k] == s[..k - 1] + [s[k - 1]]
  {
  }

  lemma ScoreBack(n: nat)
    requires n < Pow2(63)
    ensures ScoreBits(ToText(n)) == n
  {
    AtoiOfDec(n);
    Pow2Mono(63, 64);
    QuotientUnique(n, Pow2(64), 0, n);
  }

  /** The list so far holds the first k points of the reply. */
  predicate PointsSoFar(ct: CoordType, blocks: seq<string>, k: nat, points: seq<GeoPoint>) {
    2 * k <= |blocks| && points == PointsIn(ct, blocks, k)
  }

  lemma NoPoints(ct: CoordType, blocks: seq<string>)
    ensures PointsSoFar(ct, blocks, 0, [])
  {
  }

  lemma NextPoint(ct: CoordType, blocks: seq<string>, k: nat, points: seq<GeoPoint>)
    requires PointsSoFar(ct, blocks, k, points) && 2 * k + 2 <= |blocks|
    ensures PointsSoFar(ct, blocks, k + 1, points + [PointAt(ct, blocks[2 * k], blocks[2 * k + 1])])
  {
  }

  method NewPoint(ct: CoordType, member: string, text: string) returns (p: GeoPoint)
    ensures p == PointAt(ct, member, text)
  {
    var ok, latitude, longitude := DecodeScore(ct, ScoreBits(text));
    p := GeoPoint(member, latitude, longitude, 0.0);
  }

  /** A list allocated by the current method, with all its nodes. */
  twostate predicate Own(new l: List<GeoPoint>)
    reads l, l.nodes
  {
    fresh(l) && l.Valid() && forall i | 0 <= i < |l.nodes| :: fresh(l.nodes[i])
  }

  method AddPoint(l: List<GeoPoint>, ct: CoordType, member: string, text: string)
    requires l.Valid()
    modifies l, l.nodes
    ensures l.Valid() && l.Contents() == old(l.Contents()) + [PointAt(ct, member, text)]
    ensures forall i | 0 <= i < |l.nodes| :: (i < |old(l.nodes)| && l.nodes[i] == old(l.nodes)[i]) || fresh(l.nodes[i])
  {
    hide PointAt, Data;
    var p := NewPoint(ct, member, text);
    ghost var added := l.AddTail(p);
  }

  /** The loop over the blocks of a reply. */
  method PointsList(ct: CoordType, response: ResponseObj) returns (l: List<GeoPoint>)
    requires response.Valid() && response.num % 2 == 0
    ensures Own(l)
    ensures PointsSoFar(ct, response.Contents(), response.num / 2, l.Contents())
  {
    hide PointAt, PointsSoFar, Data;
    assert PointsSoFar(ct, response.Contents(), 0, []) by { NoPoints(ct, response.Contents()); }
    l := new List<GeoPoint>();
    var b := response.block;
    var i := 1;
    ghost var blocks := response.Contents();
    ghost var k := 0;
    while b != null
      invariant Own(l)
      invariant 0 <= 2 * k <= |blocks| && (i == 2 * k + 1 || i == 2 * k + 2) && i <= |blocks| + 1
      invariant b == if i <= |blocks| then response.nodes[i - 1] else null
      invariant PointsSoFar(ct, blocks, k, l.Contents())
      decreases |blocks| + 1 - i
    {
      if i % 2 == 0 {
        hide PointsIn;
        assert b.prev == response.nodes[2 * k];
        assert b.prev.data == blocks[2 * k] && b.data == blocks[2 * k + 1];
        NextPoint(ct, blocks, k, l.Contents());
        AddPoint(l, ct, b.prev.data, b.data);
        k := k + 1;
      }
      b := b.next;
      i := i + 1;
    }
  }

  /** The question and the answer of one box, on the wire. */
  method AskBox(store: Store, key: string, lo: nat, hi: nat, limit: nat) returns (response: ResponseObj)
    requires Storable(DbOf(store, key))
    ensures response.Valid() && response.status == Ok
    ensures response.Contents() == EntryReply(Zscan(DbOf(store, key), lo, hi, limit))
  {
    ghost var es := Zscan(DbOf(store, key), lo, hi, limit);
    var cmd := CmdFormatByStr(["zscan", key, "", ToText(lo), ToText(hi), ToText(limit)]);
    ServeZscan(store, key, lo, hi, limit);
    var stream := new Stream(Serve(store, cmd));
    ReplySized(DbOf(store, key), lo, hi, limit);
    RoundTrip("ok", EntryReply(es), "");
    ConcatEmpty(stream.pending);
    StatusWords("ok");
    var r, fatal := ReadResponse(stream);
    response := r;
  }

  /** The part of ssdb_geo_member_box from the response on: null for no response, a bad status, an odd
      number of blocks or no points; otherwise the list of the points. */
  method BoxList(ct: CoordType, response: ResponseObj?) returns (l: List?<GeoPoint>)
    requires response != null ==> response.Valid()
    ensures l == null <==> response == null || response.status != Ok || response.num % 2 != 0 || response.num == 0
    ensures l != null ==> Own(l)
    ensures l != null ==> PointsSoFar(ct, response.Contents(), response.num / 2, l.Contents())
  {
    hide Data, PointAt;
    if response == null || response.status != Ok || response.num % 2 != 0 {
      return null;
    }
    l := PointsList(ct, response);
    PointsCount(ct, response.Contents(), response.num / 2);
    if l.num == 0 {
      var freed := l.Destroy();
      l := null;
    }
  }

  lemma {:induction false} PointsCount(ct: CoordType, blocks: seq<string>, k: nat)
    requires 2 * k <= |blocks|
    ensures |PointsIn(ct, blocks, k)| == k
  {
    if k > 0 {
      PointsCount(ct, blocks, k - 1);
    }
  }

  /** ssdb_geo_member_box: ask for the cell's scores, read the reply, build the list; null for an
      empty one. */
  method MemberBox(store: Store, key: string, ct: CoordType, h: Hash, limit: nat) returns (l: List?<GeoPoint>)
    requires CellSized(h) && !HashIsZero(h) && Storable(DbOf(store, key))
    ensures l == null <==> ScanBox(ct, DbOf(store, key), h, limit) == []
    ensures l != null ==> Own(l)
    ensures l != null ==> l.Contents() == ScanBox(ct, DbOf(store, key), h, limit)
  {
    hide PointOf, LowScore, HighScore, EntryReply, PointsIn, Zscan, Data;
    var lo, hi := LowScore(h), HighScore(h);
    var response := AskBox(store, key, lo, hi, limit);
    ReplyPoints(ct, DbOf(store, key), lo, hi, limit);
    l := BoxList(ct, response);
  }

  /** Reading the reply to a zscan gives the points of the elements found. */
  lemma ReplyPoints(ct: CoordType, db: Zset, lo: nat, hi: nat, limit: nat)
    requires Storable(db)
    ensures var es := Zscan(db, lo, hi, limit);
      |EntryReply(es)| == 2 * |es| && PointsIn(ct, EntryReply(es), |es|) == PointsOf(ct, es)
  {
    var es := Zscan(db, lo, hi, limit);
    ScannedSmall(db, lo, hi, limit);
    PointsOfReply(ct, es, |es|);
    assert PointsOf(ct, es)[..|es|] == PointsOf(ct, es);
  }

  lemma ScannedSmall(db: Zset, lo: nat, hi: nat, limit: nat)
    requires Storable(db)
    ensures forall e | e in Zscan(db, lo, hi, limit) :: e.score < Pow2(63)
  {
    forall e | e in Zscan(db, lo, hi, limit)
      ensures e.score < Pow2(63)
    {
      ZscanHas(db, lo, hi, limit, e);
    }
  }

  // ---------- ssdb_geo_members: the filter ----------

  lemma FilteredNext(q: Query, ps: seq<GeoPoint>, i: nat)
    requires i < |ps|
    ensures Filtered(q, ps[..i + 1]) == Filtered(q, ps[..i]) + (if Keeps(q, ps[i]) then [Measured(q, ps[i])] else [])
  {
    assert ps[..i + 1][..i] == ps[..i];
  }

  /** The list during the loop: what is kept of the first i points, then the points still to come. */
  ghost predicate Filtering(q: Query, ps: seq<GeoPoint>, i: nat, k: nat, contents: seq<GeoPoint>) {
    i <= |ps| && k == |Filtered(q, ps[..i])| && contents == Filtered(q, ps[..i]) + ps[i..]
  }

  lemma FilteringStarts(q: Query, ps: seq<GeoPoint>)
    ensures Filtering(q, ps, 0, 0, ps)
  {
    assert ps[..0] == [] && ps[0..] == ps;
  }

  lemma FilteringKeeps(q: Query, ps: seq<GeoPoint>, i: nat, k: nat, contents: seq<GeoPoint>)
    requires Filtering(q, ps, i, k, contents) && i < |ps|
    ensures k < |contents| && contents[k] == ps[i]
    ensures Keeps(q, ps[i]) ==> Filtering(q, ps, i + 1, k + 1, contents[k := Measured(q, ps[i])])
    ensures !Keeps(q, ps[i]) ==> Filtering(q, ps, i + 1, k, contents[..k] + contents[k + 1..])
  {
    hide Keeps, Measured;
    FilteredNext(q, ps, i);
  }

  /** One pass of the filter loop over node c: unless it is the centre its distance is written; if
      it fails the test it is unlinked, following a null link when it is an end of the list. */
  method FilterNode(l: List<GeoPoint>, q: Query, c: Node<GeoPoint>, ghost k: nat) returns (defined: bool)
    requires l.Valid() && k < |l.nodes| && c == l.nodes[k]
    modifies l, l.Nodes()
    ensures l.Nodes() <= old(l.Nodes())
    ensures var keep := Keeps(q, old(c.data));
      && (defined <==> keep || 0 < k < |old(l.nodes)| - 1)
      && (keep ==> l.Valid() && l.nodes == old(l.nodes) && l.Contents() == old(l.Contents())[k := Measured(q, old(c.data))])
      && (!keep && defined ==> l.Valid() && l.nodes == old(l.nodes)[..k] + old(l.nodes)[k + 1..]
                               && l.Contents() == old(l.Contents())[..k] + old(l.Contents())[k + 1..])
  {
    hide Data, Measured;
    var p := c.data;
    if !IsCentre(q, p.member) {
      l.SetData(c, Measured(q, p), k);
      if InRadius(q, p.latitude, p.longitude) {
        return true;
      }
    }
    if c.prev == null {
      l.head := c.next;
    }
    if c.next == null {
      l.tail := c.prev;
    }
    if c.prev == null || c.next == null {
      return false;
    }
    l.Unlink(c, k);
    defined := true;
  }

  /** The loop stands at node n, point i of ps, which is now at place k of the list. */
  ghost predicate Walking(l: List<GeoPoint>, q: Query, ps: seq<GeoPoint>, i: nat, k: nat, n: Node?<GeoPoint>)
    reads l, l.nodes
  {
    && l.Valid() && Filtering(q, ps, i, k, l.Contents()) && |l.nodes| - k == |ps| - i && k <= i
    && (i > 0 ==> k > 0 && Keeps(q, ps[0]))
    && (i == |ps| && i > 0 ==> Keeps(q, ps[i - 1]))
    && n == (if i < |ps| then l.nodes[k] else null)
  }

  /** One pass of the filter loop. */
  method FilterPass(l: List<GeoPoint>, q: Query, c: Node<GeoPoint>, ghost ps: seq<GeoPoint>, ghost i: nat, ghost k: nat)
    returns (defined: bool, next: Node?<GeoPoint>, ghost k': nat)
    requires Walking(l, q, ps, i, k, c) && i < |ps|
    modifies l, l.Nodes()
    ensures l.Nodes() <= old(l.Nodes())
    ensures defined ==> Walking(l, q, ps, i + 1, k', next) && (next != null ==> i + 1 < |ps|)
    ensures !defined ==> !EndsKept(q, ps)
  {
    hide Keeps, Data, Filtering, Filtered;
    l.NextOf(k);
    next := c.next;
    FilteringKeeps(q, ps, i, k, l.Contents());
    k' := if Keeps(q, ps[i]) then k + 1 else k;
    defined := FilterNode(l, q, c, k);
  }

  lemma WalkEnds(l: List<GeoPoint>, q: Query, ps: seq<GeoPoint>, i: nat, k: nat)
    requires Walking(l, q, ps, i, k, null)
    ensures EndsKept(q, ps) && l.Valid() && l.Contents() == Filtered(q, ps)
  {
    assert ps[..|ps|] == ps;
  }

  /** The filter loop. It runs to its end exactly when both ends of the list are kept; otherwise it
      follows a null link. Then the list holds the kept points in order, with their distances. */
  method FilterList(l: List<GeoPoint>, q: Query) returns (defined: bool)
    requires l.Valid()
    modifies l, l.Nodes()
    ensures l.Nodes() <= old(l.Nodes())
    ensures defined <==> EndsKept(q, old(l.Contents()))
    ensures defined ==> l.Valid() && l.Contents() == Filtered(q, old(l.Contents()))
  {
    ghost var ps := l.Contents();
    ghost var i, k := 0, 0;
    var n := l.head;
    FilteringStarts(q, ps);
    assert Walking(l, q, ps, i, k, n);
    hide Walking, EndsKept, Filtered, List.Valid;
    while n != null
      invariant Walking(l, q, ps, i, k, n) && l.Nodes() <= old(l.Nodes()) && (n != null ==> i < |ps|)
      decreases |ps| - i
    {
      defined, n, k := FilterPass(l, q, n, ps, i, k);
      if !defined {
        return;
      }
      i := i + 1;
    }
    WalkEnds(l, q, ps, i, k);
    defined := true;
  }

  // ---------- ssdb_geo_members: the boxes ----------

  lemma ScanAllNext(ct: CoordType, db: Zset, hs: seq<Hash>, limit: nat, i: nat)
    requires i < |hs| && forall h | h in hs :: Scannable(h)
    ensures ScanAll(ct, db, hs[..i + 1], limit) == ScanAll(ct, db, hs[..i], limit) + ScanBox(ct, db, hs[i], limit)
  {
    assert hs[..i + 1][..i] == hs[..i];
  }

  /** The points of a list that is null when empty. */
  ghost function PointsOfList(l: List?<GeoPoint>): seq<GeoPoint>
    reads l, if l == null then [] else l.nodes
  {
    if l == null then [] else l.Contents()
  }

  ghost predicate ProperList(l: List?<GeoPoint>)
    reads l, if l == null then [] else l.nodes
  {
    l != null ==> l.Valid() && l.num > 0
  }

  ghost function NodesOf(l: List?<GeoPoint>): set<Node<GeoPoint>>
    reads l
  {
    if l == null then {} else l.Nodes()
  }

  /** One box: without points it leaves the list alone, the first one with points becomes the list,
      a later one is joined to it. */
  method AddBox(l: List?<GeoPoint>, tl: List?<GeoPoint>) returns (r: List?<GeoPoint>)
    requires ProperList(l) && ProperList(tl)
    requires l != null && tl != null ==> l != tl && NodesOf(l) !! NodesOf(tl)
    modifies l, NodesOf(l), NodesOf(tl)
    ensures ProperList(r) && r == (if l == null then tl else l)
    ensures NodesOf(r) == old(NodesOf(l)) + old(NodesOf(tl))
    ensures PointsOfList(r) == old(PointsOfList(l)) + old(PointsOfList(tl))
  {
    hide Data;
    r := l;
    if tl == null {
      return;
    }
    if l == null {
      r := tl;
    } else {
      assert Apart(l.nodes, tl.nodes) by {
        assert forall i | 0 <= i < |l.nodes| :: l.nodes[i] in l.Nodes();
        assert forall j | 0 <= j < |tl.nodes| :: tl.nodes[j] in tl.Nodes();
      }
      l.Join(tl);
    }
  }

  method ScanNext(store: Store, key: string, ct: CoordType, h: Hash, limit: nat, l: List?<GeoPoint>)
    returns (r: List?<GeoPoint>)
    requires Storable(DbOf(store, key)) && Scannable(h) && ProperList(l)
    modifies l, NodesOf(l)
    ensures ProperList(r) && (r == l || fresh(r)) && fresh(NodesOf(r) - old(NodesOf(l)))
    ensures PointsOfList(r) == old(PointsOfList(l)) + ScanBox(ct, DbOf(store, key), h, limit)
  {
    hide Data, Storable, PointsOf, Zscan;
    if HashIsZero(h) {
      return l;
    }
    var tl := MemberBox(store, key, ct, h, limit);
    r := AddBox(l, tl);
  }

  /** The loop over the nine hashes. */
  method ScanBoxes(store: Store, key: string, ct: CoordType, hs: seq<Hash>, limit: nat) returns (l: List?<GeoPoint>)
    requires Storable(DbOf(store, key)) && forall h | h in hs :: Scannable(h)
    ensures ProperList(l) && (l != null ==> fresh(l)) && fresh(NodesOf(l))
    ensures PointsOfList(l) == ScanAll(ct, DbOf(store, key), hs, limit)
  {
    hide Data, Scannable, Linked, Storable, ScanBox, PointsOfList, ProperList;
    l := null;
    NoList();
    ghost var db := DbOf(store, key);
    for i := 0 to |hs|
      invariant ProperList(l) && (l != null ==> fresh(l)) && fresh(NodesOf(l))
      invariant PointsOfList(l) == ScanAll(ct, db, hs[..i], limit)
    {
      ScanAllNext(ct, db, hs, limit, i);
      ghost var before := NodesOf(l);
      l := ScanNext(store, key, ct, hs[i], limit, l);
      forall x | x in NodesOf(l)
        ensures fresh(x)
      {
        assert x in before || x in NodesOf(l) - before;
      }
    }
    assert hs[..|hs|] == hs;
  }

  lemma NoList()
    ensures PointsOfList(null) == [] && ProperList(null) && NodesOf(null) == {}
  {
  }

  // ---------- ssdb_geo_members ----------

  lemma {:induction false} FilteredNotEmpty(q: Query, ps: seq<GeoPoint>)
    requires ps != [] && EndsKept(q, ps)
    ensures Filtered(q, ps) != []
  {
  }

  /** ssdb_geo_members: it is defined exactly when some point was scanned and the first and the last
      scanned point pass the test; then it returns the search result as a list. */
  method Members(store: Store, key: string, q: Query, limit: nat) returns (defined: bool, l: List?<GeoPoint>)
    requires Storable(DbOf(store, key))
    ensures defined <==> RunDefined(q, DbOf(store, key), limit)
    ensures defined ==> l != null && l.Valid() && fresh(l) && fresh(NodesOf(l))
    ensures defined ==> l.num > 0 && l.Contents() == Search(q, DbOf(store, key), limit)
  {
    hide Data, EndsKept, Boxes, Areas, Scannable, ScanAll, Filtered, Linked, Storable;
    QueryScannable(q);
    var g := GetAreasByRadius(q.ct, q.latitude, q.longitude, q.radius);
    l := ScanBoxes(store, key, q.ct, Boxes(g), limit);
    if l == null {
      return false, null;
    }
    if EndsKept(q, l.Contents()) {
      FilteredNotEmpty(q, l.Contents());
    }
    defined := FilterList(l, q);
    if defined && l.num == 0 {
      l := null;
    }
  }
}
