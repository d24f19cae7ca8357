// ssdb_list_response and ssdb_map_response (twin == 1, string values, no serialiser): turning
// the blocks of a response into a PHP array, with the key prefix stripped again.
module Replies {
  import opened CStrings
  import opened Wire
  import opened Links
  import opened Responses
  import opened Commands

  // ---------- PHP arrays ----------

  function Find<V>(m: PhpArray<V>, key: string): (i: nat)
    ensures i <= |m| && (i < |m| ==> m[i].key == key)
    ensures forall j | 0 <= j < i :: m[j].key != key
  {
    if m == [] then 0 else if m[0].key == key then 0 else 1 + Find(m[1..], key)
  }

  /** add_assoc_stringl: an existing key keeps its place and gets the new value. */
  function Put<V>(m: PhpArray<V>, key: string, value: V): PhpArray<V> {
    var i := Find(m, key);
    if i < |m| then m[i := Pair(key, value)] else m + [Pair(key, value)]
  }

  lemma {:induction false} FindAbsent<V>(m: PhpArray<V>, key: string)
    requires forall p | p in m :: p.key != key
    ensures Find(m, key) == |m|
  {
    if m != [] {
      FindAbsent(m[1..], key);
    }
  }

  lemma PutNew<V>(m: PhpArray<V>, p: Pair<V>)
    requires Distinct(m + [p])
    ensures Put(m, p.key, p.value) == m + [p]
  {
    var all := m + [p];
    forall j | 0 <= j < |m|
      ensures m[j].key != p.key
    {
      assert all[j] == m[j] && all[|m|] == p;
    }
    FindAbsent(m, p.key);
  }

  lemma PutDistinct<V>(m: PhpArray<V>, key: string, value: V)
    requires Distinct(m)
    ensures Distinct(Put(m, key, value))
  {
  }

  /** An element put under a key that is there changes its value and nothing else; under a new key it is
      added at the end. */
  lemma PutAt<V>(m: PhpArray<V>, key: string, value: V)
    requires Distinct(m)
    ensures (exists p :: p in m && p.key == key) ==> |Put(m, key, value)| == |m|
    ensures !(exists p :: p in m && p.key == key) ==> Put(m, key, value) == m + [Pair(key, value)]
    ensures forall i | 0 <= i < |m| ::
      Put(m, key, value)[i] == if m[i].key == key then Pair(key, value) else m[i]
  {
    var i := Find(m, key);
    if exists p :: p in m && p.key == key {
      var p :| p in m && p.key == key;
      var j :| 0 <= j < |m| && m[j] == p;
      assert i <= j;
    } else {
      FindAbsent(m, key);
    }
  }

  // ---------- keys ----------

  /** The key code would read behind the block: strncmp also matches a shorter block when the prefix has
      a NUL where the block ends. */
  predicate Overruns(prefix: string, filter: bool, data: string) {
    filter && StrNEq(data, prefix, |prefix|) && |prefix| > |data|
  }

  /** The array key made of a key block: the prefix is stripped where strncmp finds it, and the
      rest is read as a C string. */
  function KeyOf(prefix: string, filter: bool, data: string): (r: string)
    ensures NulFree(r)
  {
    if filter && StrNEq(data, prefix, |prefix|) then CStr(Behind(data, |prefix|)) else CStr(data)
  }

  /** What is behind the first n characters; nothing is said of it when there are fewer. */
  function Behind(data: string, n: nat): string { if n <= |data| then data[n..] else "" }

  method ReadKey(prefix: string, filter: bool, data: string) returns (key: string)
    requires !Overruns(prefix, filter, data)
    ensures key == KeyOf(prefix, filter, data)
  {
    if filter && StrNEq(data, prefix, |prefix|) {
      key := CStr(data[|prefix|..]);
    } else {
      key := CStr(data);
    }
  }

  /** Every block is read within its bounds when the prefix has no NUL, or when it was written with
      the prefix. */
  lemma NoOverrun(prefix: string, filter: bool, data: string)
    requires NulFree(prefix) || prefix <= data
    ensures !Overruns(prefix, filter, data)
  {
    if NulFree(prefix) {
      StrNEqIsPrefix(data, prefix);
    }
  }

  /** How keys must be written to be read back: with the prefix that is stripped, or with none where
      none is stripped. */
  predicate WrittenFor(prefix: string, filter: bool, written: string) {
    written == if filter then prefix else ""
  }

  lemma KeyOfPrefixed(prefix: string, filter: bool, written: string, key: string)
    requires WrittenFor(prefix, filter, written)
    ensures KeyOf(prefix, filter, written + key) == CStr(key)
  {
    assert "" + key == key;
    StrNEqOwnPrefix(prefix, key);
    assert (prefix + key)[|prefix|..] == key;
  }

  /** A block that does not begin with the prefix is the key as it is, exactly if it has no NUL. */
  lemma KeyWithout(prefix: string, data: string)
    requires NulFree(prefix) && !(prefix <= data)
    ensures KeyOf(prefix, true, data) == data <==> NulFree(data)
  {
    StrNEqIsPrefix(data, prefix);
  }

  // ---------- the two conversions ----------

  /** Key and value blocks in pairs; a last single block is ignored. */
  function MapFrom(m: PhpArray<string>, prefix: string, filter: bool, blocks: seq<string>): PhpArray<string>
    decreases |blocks|
  {
    if |blocks| < 2 then m
    else MapFrom(Put(m, KeyOf(prefix, filter, blocks[0]), blocks[1]), prefix, filter, blocks[2..])
  }

  function ListOf(prefix: string, filter: bool, blocks: seq<string>): seq<string>
  {
    if blocks == [] then [] else
      ListOf(prefix, filter, blocks[..|blocks| - 1]) + [KeyOf(prefix, filter, blocks[|blocks| - 1])]
  }

  datatype Reply<T> = NullReply | Reply(value: T)

  lemma {:induction false} MapFromAppend(m: PhpArray<string>, prefix: string, filter: bool, a: seq<string>, b: seq<string>)
    requires |a| % 2 == 0
    ensures MapFrom(m, prefix, filter, a + b) == MapFrom(MapFrom(m, prefix, filter, a), prefix, filter, b)
    decreases |a|
  {
    if a == [] {
      assert a + b == b;
    } else {
      assert (a + b)[2..] == a[2..] + b;
      assert (a + b)[0] == a[0] && (a + b)[1] == a[1];
      MapFromAppend(Put(m, KeyOf(prefix, filter, a[0]), a[1]), prefix, filter, a[2..], b);
    }
  }

  lemma MapFromPair(m: PhpArray<string>, prefix: string, filter: bool, k: string, v: string)
    ensures MapFrom(m, prefix, filter, [k, v]) == Put(m, KeyOf(prefix, filter, k), v)
  {
    assert [k, v][2..] == [];
  }

  lemma MapFromOdd(m: PhpArray<string>, prefix: string, filter: bool, blocks: seq<string>, i: nat)
    requires i % 2 == 0 && i + 2 <= |blocks|
    ensures MapFrom(m, prefix, filter, blocks[..i + 2])
         == Put(MapFrom(m, prefix, filter, blocks[..i]), KeyOf(prefix, filter, blocks[i]), blocks[i + 1])
  {
    assert blocks[..i + 2] == blocks[..i] + [blocks[i], blocks[i + 1]];
    MapFromAppend(m, prefix, filter, blocks[..i], [blocks[i], blocks[i + 1]]);
    MapFromPair(MapFrom(m, prefix, filter, blocks[..i]), prefix, filter, blocks[i], blocks[i + 1]);
  }

  /** m holds the first k pairs. */
  predicate MapSoFar(prefix: string, filter: bool, contents: seq<string>, k: nat, m: PhpArray<string>)
  {
    2 * k <= |contents| && m == MapFrom([], prefix, filter, contents[..2 * k])
  }

  lemma NoPairs(prefix: string, filter: bool, contents: seq<string>)
    ensures MapSoFar(prefix, filter, contents, 0, [])
  {
  }

  lemma AllPairs(prefix: string, filter: bool, contents: seq<string>, k: nat, m: PhpArray<string>)
    requires MapSoFar(prefix, filter, contents, k, m) && 2 * k == |contents|
    ensures m == MapFrom([], prefix, filter, contents)
  {
    assert contents[..|contents|] == contents;
  }

  lemma NextPair(prefix: string, filter: bool, contents: seq<string>, k: nat, m: PhpArray<string>)
    requires 2 * k + 2 <= |contents| && MapSoFar(prefix, filter, contents, k, m)
    ensures MapSoFar(prefix, filter, contents, k + 1, Put(m, KeyOf(prefix, filter, contents[2 * k]), contents[2 * k + 1]))
  {
    MapFromOdd([], prefix, filter, contents, 2 * k);
  }

  /** The key blocks, the first of each pair, are read within their bounds. */
  ghost predicate KeysInBounds(prefix: string, filter: bool, blocks: seq<string>) {
    forall k {:trigger blocks[2 * k]} | 0 <= 2 * k < |blocks| :: !Overruns(prefix, filter, blocks[2 * k])
  }

  ghost predicate AllInBounds(prefix: string, filter: bool, blocks: seq<string>) {
    forall b | b in blocks :: !Overruns(prefix, filter, b)
  }

  /** What the calls are given: the response that was read, or none. */
  ghost function ReadingOf(response: ResponseObj?): Reading
    requires response != null ==> response.Valid()
    reads response, if response == null then [] else response.nodes
  {
    if response == null then Null else Response(response.status, response.Contents())
  }

  /** ssdb_list_response on a reading. */
  function ListReply(reading: Reading, prefix: string, filter: bool): Reply<seq<string>> {
    match reading
    case Response(Ok, blocks) => Reply(ListOf(prefix, filter, blocks))
    case _ => NullReply
  }

  /** ssdb_map_response on a reading. */
  function MapReply(reading: Reading, prefix: string, filter: bool): Reply<PhpArray<string>> {
    match reading
    case Response(Ok, blocks) => if |blocks| % 2 != 0 then NullReply else Reply(MapFrom([], prefix, filter, blocks))
    case _ => NullReply
  }

  /** Lists and maps are made of the blocks behind the word "ok", maps only of an even number of them;
      for every other word the answer is null. */
  lemma MessageReplies(word: string, bs: seq<string>, rest: string, prefix: string, filter: bool)
    requires Sized(word) && AllSized(bs)
    ensures var reading := ParseAll(Message([word] + bs) + rest).reading;
      && ListReply(reading, prefix, filter)
         == (if CStr(word) == "ok" then Reply(ListOf(prefix, filter, bs)) else NullReply)
      && MapReply(reading, prefix, filter)
         == (if CStr(word) == "ok" && |bs| % 2 == 0 then Reply(MapFrom([], prefix, filter, bs)) else NullReply)
  {
    hide ParseAll, Message, CStr, ListOf, MapFrom;
    MessageStatus(word, bs, rest);
  }

  /** ssdb_map_response on the response it has read. */
  method MapResponse(response: ResponseObj?, prefix: string, filter: bool) returns (r: Reply<PhpArray<string>>)
    requires response != null ==> response.Valid() && KeysInBounds(prefix, filter, response.Contents())
    ensures r == MapReply(ReadingOf(response), prefix, filter)
  {
    if response == null || response.status != Ok || response.num % 2 != 0 {
      return NullReply;
    }
    var m := MapBlocks(response, prefix, filter);
    r := Reply(m);
  }

  method MapBlocks(response: ResponseObj, prefix: string, filter: bool) returns (m: PhpArray<string>)
    requires response.Valid() && response.num % 2 == 0 && KeysInBounds(prefix, filter, response.Contents())
    ensures m == MapFrom([], prefix, filter, response.Contents())
  {
    hide KeyOf, Put, MapSoFar, Data;
    assert MapSoFar(prefix, filter, response.Contents(), 0, []) by { NoPairs(prefix, filter, response.Contents()); }
    m := [];
    var b := response.block;
    var i := 1;
    ghost var nodes := response.nodes;
    ghost var contents := response.Contents();
    ghost var k := 0;
    while b != null
      invariant 0 <= 2 * k <= |nodes| && (i == 2 * k + 1 || i == 2 * k + 2) && i <= |nodes| + 1
      invariant b == if i <= |nodes| then nodes[i - 1] else null
      invariant MapSoFar(prefix, filter, contents, k, m)
      decreases |nodes| + 1 - i
    {
      if i % 2 == 0 {
        assert b.prev == nodes[2 * k];
        assert b.prev.data == contents[2 * k] && b.data == contents[2 * k + 1];
        NextPair(prefix, filter, contents, k, m);
        var key := ReadKey(prefix, filter, b.prev.data);
        m := Put(m, key, b.data);
        k := k + 1;
      }
      b := b.next;
      i := i + 1;
    }
    AllPairs(prefix, filter, contents, k, m);
  }

  /** ssdb_list_response on the response it has read. */
  method ListResponse(response: ResponseObj?, prefix: string, filter: bool) returns (r: Reply<seq<string>>)
    requires response != null ==> response.Valid() && AllInBounds(prefix, filter, response.Contents())
    ensures r == ListReply(ReadingOf(response), prefix, filter)
  {
    hide KeyOf, Data, Overruns;
    if response == null || response.status != Ok {
      return NullReply;
    }
    var list: seq<string> := [];
    var b := response.block;
    ghost var nodes := response.nodes;
    ghost var i := 0;
    while b != null
      invariant 0 <= i <= |nodes|
      invariant b == if i < |nodes| then nodes[i] else null
      invariant list == ListOf(prefix, filter, response.Contents()[..i])
      decreases |nodes| - i
    {
      assert response.Contents()[..i + 1][..i] == response.Contents()[..i];
      assert b.data == response.Contents()[i];
      var key := ReadKey(prefix, filter, b.data);
      list := list + [key];
      b := b.next;
      i := i + 1;
    }
    assert response.Contents()[..|nodes|] == response.Contents();
    r := Reply(list);
  }

  // ---------- what multi_set wrote comes back ----------

  ghost predicate NulFreeKeys(m: PhpArray<string>) { forall p | p in m :: NulFree(p.key) }

  /** A map read back equals the map written exactly when no key contains a NUL: with the prefix that
      was written stripped, or with none written and none stripped. */
  lemma MapRoundTrip(prefix: string, filter: bool, written: string, m: PhpArray<string>)
    requires Distinct(m) && WrittenFor(prefix, filter, written)
    ensures MapFrom([], prefix, filter, ArrayBlocks(written, m, true)) == m <==> NulFreeKeys(m)
  {
    if NulFreeKeys(m) {
      MapBack(prefix, filter, written, m);
    } else {
      KeysNulFree([], prefix, filter, ArrayBlocks(written, m, true));
    }
  }

  lemma {:induction false} MapBack(prefix: string, filter: bool, written: string, m: PhpArray<string>)
    requires Distinct(m) && NulFreeKeys(m) && WrittenFor(prefix, filter, written)
    ensures MapFrom([], prefix, filter, ArrayBlocks(written, m, true)) == m
  {
    if m != [] {
      var init, last := m[..|m| - 1], m[|m| - 1];
      assert m == init + [last] && last in m;
      assert forall p | p in init :: p in m;
      MapBack(prefix, filter, written, init);
      MapBackLast(prefix, filter, written, init, last);
    }
  }

  lemma MapBackLast(prefix: string, filter: bool, written: string, init: PhpArray<string>, last: Pair<string>)
    requires Distinct(init + [last]) && NulFree(last.key) && WrittenFor(prefix, filter, written)
    requires MapFrom([], prefix, filter, ArrayBlocks(written, init, true)) == init
    ensures MapFrom([], prefix, filter, ArrayBlocks(written, init, true) + EntryBlocks(written, last, true))
         == init + [last]
  {
    hide KeyOf, Put, MapFrom, ArrayBlocks, CStr, WrittenFor;
    PairBlocks(written, init);
    MapFromAppend([], prefix, filter, ArrayBlocks(written, init, true), EntryBlocks(written, last, true));
    MapFromPair(init, prefix, filter, Prefixed(written, last.key), last.value);
    KeyOfPrefixed(prefix, filter, written, last.key);
    PutNew(init, last);
  }

  lemma {:induction false} KeysNulFree(m: PhpArray<string>, prefix: string, filter: bool, blocks: seq<string>)
    requires NulFreeKeys(m)
    ensures NulFreeKeys(MapFrom(m, prefix, filter, blocks))
    decreases |blocks|
  {
    if |blocks| >= 2 {
      KeysNulFree(Put(m, KeyOf(prefix, filter, blocks[0]), blocks[1]), prefix, filter, blocks[2..]);
    }
  }

  /** The whole way: the server answers "ok" with the prefixed keys and the values as the client
      wrote them; reading that answer, however it is followed, gives the original array. */
  lemma MultiSetGet(prefix: string, m: PhpArray<string>, rest: string)
    requires Distinct(m) && NulFreeKeys(m)
    requires AllSized(ArrayBlocks(prefix, m, true))
    ensures var reply := Message(["ok"] + ArrayBlocks(prefix, m, true));
      var p := ParseAll(reply + rest);
      && p.rest == rest && p.reading.Response? && p.reading.status == Ok
      && |p.reading.blocks| % 2 == 0
      && MapFrom([], prefix, true, p.reading.blocks) == m
  {
    hide StatusOf, ParseAll, Message, ArrayBlocks, MapFrom, CStr;
    StatusWords("ok");
    RoundTrip("ok", ArrayBlocks(prefix, m, true), rest);
    PairBlocks(prefix, m);
    MapRoundTrip(prefix, true, prefix, m);
  }

  /** A list of keys reads back as written exactly when no key contains a NUL: with the prefix that was
      written stripped, or with none written and none stripped. */
  lemma {:induction false} ListRoundTrip(prefix: string, filter: bool, written: string, keys: seq<string>)
    requires WrittenFor(prefix, filter, written)
    ensures ListOf(prefix, filter, PrefixAll(written, keys)) == keys <==> forall k | k in keys :: NulFree(k)
    ensures |ListOf(prefix, filter, PrefixAll(written, keys))| == |keys|
  {
    hide KeyOf, WrittenFor;
    if keys != [] {
      var init, last := keys[..|keys| - 1], keys[|keys| - 1];
      assert keys == init + [last];
      ListRoundTrip(prefix, filter, written, init);
      KeyOfPrefixed(prefix, filter, written, last);
      var blocks := PrefixAll(written, keys);
      assert blocks[..|blocks| - 1] == PrefixAll(written, init);
      var back := ListOf(prefix, filter, blocks);
      assert back[..|init|] == ListOf(prefix, filter, PrefixAll(written, init));
      assert back == keys <==> back[..|init|] == init && CStr(last) == last;
    }
  }

  /** A list of blocks read without a filter is the list of the blocks exactly when none has a NUL. */
  lemma ListUnfiltered(prefix: string, blocks: seq<string>)
    ensures ListOf(prefix, false, blocks) == blocks <==> forall b | b in blocks :: NulFree(b)
  {
    PrefixAllAt("", blocks);
    forall i | 0 <= i < |blocks|
      ensures PrefixAll("", blocks)[i] == blocks[i]
    {
      assert "" + blocks[i] == blocks[i];
    }
    assert PrefixAll("", blocks) == blocks;
    ListRoundTrip(prefix, false, "", blocks);
  }

  /** The values of the keys a multi_get sent, as the server sees them, read back as the keys. */
  lemma KeysSentReadBack(prefix: string, cmd: string, key: string, m: PhpArray<string>)
    ensures var n := if key == "" then 1 else 2;
      ListOf(prefix, true, CommandBlocks(prefix, cmd, key, m, false)[n..]) == NonEmptyValues(m)
      <==> forall k | k in NonEmptyValues(m) :: NulFree(k)
  {
    hide ListOf, CommandBlocks, ArrayBlocks, NonEmptyValues;
    CommandShape(prefix, cmd, key, m, false);
    ValueBlocks(prefix, m);
    ListRoundTrip(prefix, true, prefix, NonEmptyValues(m));
  }

  // ---------- repeated keys ----------

  /** In a map every element has the value of the last pair with its key. */
  lemma {:induction false} LastWins(prefix: string, filter: bool, blocks: seq<string>, i: nat) returns (k: nat)
    requires |blocks| % 2 == 0 && i < |MapFrom([], prefix, filter, blocks)|
    ensures 2 * k + 1 < |blocks|
    ensures MapFrom([], prefix, filter, blocks)[i] == Pair(KeyOf(prefix, filter, blocks[2 * k]), blocks[2 * k + 1])
    ensures forall j {:trigger blocks[2 * j]} | k < j && 2 * j < |blocks| ::
      KeyOf(prefix, filter, blocks[2 * j]) != KeyOf(prefix, filter, blocks[2 * k])
    decreases |blocks|
  {
    hide KeyOf, Put;
    var n := |blocks| - 2;
    var init := blocks[..n];
    assert blocks[..n + 2] == blocks;
    MapFromOdd([], prefix, filter, blocks, n);
    var m := MapFrom([], prefix, filter, init);
    MapDistinct([], prefix, filter, init);
    PutAt(m, KeyOf(prefix, filter, blocks[n]), blocks[n + 1]);
    if i < |m| && m[i].key != KeyOf(prefix, filter, blocks[n]) {
      k := LastWins(prefix, filter, init, i);
    } else {
      k := n / 2;
    }
  }

  lemma {:induction false} MapDistinct(m: PhpArray<string>, prefix: string, filter: bool, blocks: seq<string>)
    requires Distinct(m)
    ensures Distinct(MapFrom(m, prefix, filter, blocks))
    decreases |blocks|
  {
    hide KeyOf;
    if |blocks| >= 2 {
      PutDistinct(m, KeyOf(prefix, filter, blocks[0]), blocks[1]);
      MapDistinct(Put(m, KeyOf(prefix, filter, blocks[0]), blocks[1]), prefix, filter, blocks[2..]);
    }
  }
}
