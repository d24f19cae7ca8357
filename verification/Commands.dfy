// The command encoders of ssdb_library.c: ssdb_key_prefix, ssdb_cmd_format_by_str and
// ssdb_cmd_format_by_zval, without a serialiser (values are the strings they convert to).
module Commands {
  import opened Decimal
  import opened Wire

  /** One element of a PHP array, its key as text. */
  datatype Pair<V> = Pair(key: string, value: V)

  type PhpArray<V> = seq<Pair<V>>

  /** No key twice: what a PHP hash table guarantees. */
  ghost predicate Distinct<V>(m: PhpArray<V>) {
    forall i, j | 0 <= i < j < |m| :: m[i].key != m[j].key
  }

  /** ssdb_key_prefix; an unset prefix is the empty one. */
  function Prefixed(prefix: string, key: string): string { prefix + key }

  method KeyPrefix(prefix: string, key: string) returns (prefixed: bool, r: string)
    ensures r == Prefixed(prefix, key) && (prefixed <==> prefix != "")
  {
    if |prefix| == 0 {
      assert "" + key == key;
      return false, key;
    }
    r := prefix + key;
    prefixed := true;
  }

  /** The four smart_str appends every block is written with. */
  method AppendBlock(buf: string, s: string) returns (r: string)
    ensures r == buf + Block(s)
  {
    r := buf;
    r := r + ToText(|s|);
    r := r + "\n";
    r := r + s;
    r := r + "\n";
  }

  /** ssdb_cmd_format_by_str: the first argument, then the others up to the closing NULL. */
  method CmdFormatByStr(args: seq<string>) returns (buf: string)
    requires args != []
    ensures buf == Message(args)
  {
    buf := "";
    var i := 0;
    var k := 0;
    while true
      invariant 0 <= k < |args|
      invariant i == 2 * k || i == 2 * k + 1
      invariant buf == Blocks(if i % 2 == 0 then args[..k] else args[..k + 1])
      decreases |args| - k, 2 * k + 1 - i
    {
      if i % 2 == 0 {
        BlocksAppend(args[..k], [args[k]]);
        assert args[..k + 1] == args[..k] + [args[k]];
        SingleBlock(args[k]);
        buf := AppendBlock(buf, args[k]);
      } else {
        if k + 1 == |args| {
          break;
        }
        k := k + 1;
      }
      i := i + 1;
    }
    assert args[..|args|] == args;
    buf := buf + "\n";
  }

  lemma SingleBlock(s: string)
    ensures Blocks([s]) == Block(s)
  {
    assert [s][1..] == [];
    ConcatEmpty(Block(s));
  }

  /** What one array element contributes. */
  function EntryBlocks(prefix: string, p: Pair<string>, readAll: bool): seq<string> {
    if readAll then [Prefixed(prefix, p.key), p.value]
    else if p.value == "" then []
    else [Prefixed(prefix, p.value)]
  }

  function ArrayBlocks(prefix: string, m: PhpArray<string>, readAll: bool): seq<string> {
    if m == [] then [] else ArrayBlocks(prefix, m[..|m| - 1], readAll) + EntryBlocks(prefix, m[|m| - 1], readAll)
  }

  /** The strings of a list, each with the prefix. */
  function PrefixAll(prefix: string, keys: seq<string>): seq<string> {
    if keys == [] then [] else PrefixAll(prefix, keys[..|keys| - 1]) + [Prefixed(prefix, keys[|keys| - 1])]
  }

  lemma {:induction false} PrefixAllAt(prefix: string, keys: seq<string>)
    ensures |PrefixAll(prefix, keys)| == |keys|
    ensures forall i | 0 <= i < |keys| :: PrefixAll(prefix, keys)[i] == prefix + keys[i]
  {
    if keys != [] {
      PrefixAllAt(prefix, keys[..|keys| - 1]);
    }
  }

  /** The values of an array, in order, without the empty ones. */
  function NonEmptyValues(m: PhpArray<string>): seq<string> {
    if m == [] then [] else
      var last := m[|m| - 1].value;
      NonEmptyValues(m[..|m| - 1]) + (if last == "" then [] else [last])
  }

  /** A list of keys is sent as its non-empty values, each with the prefix. */
  lemma {:induction false} ValueBlocks(prefix: string, m: PhpArray<string>)
    ensures ArrayBlocks(prefix, m, false) == PrefixAll(prefix, NonEmptyValues(m))
  {
    if m != [] {
      var init, last := m[..|m| - 1], m[|m| - 1].value;
      ValueBlocks(prefix, init);
      if last != "" {
        var all := NonEmptyValues(m);
        assert all[..|all| - 1] == NonEmptyValues(init) && all[|all| - 1] == last;
      } else {
        assert NonEmptyValues(m) == NonEmptyValues(init);
        assert ArrayBlocks(prefix, m, false) == ArrayBlocks(prefix, init, false);
      }
    }
  }

  /** An array of pairs is sent as two blocks for each element: the key with the prefix, then the value
      as it is, even an empty one. */
  lemma {:induction false} PairBlocks(prefix: string, m: PhpArray<string>)
    ensures |ArrayBlocks(prefix, m, true)| == 2 * |m|
    ensures forall i | 0 <= i < |m| :: PairAt(ArrayBlocks(prefix, m, true), i, prefix + m[i].key, m[i].value)
  {
    if m != [] {
      var init := m[..|m| - 1];
      PairBlocks(prefix, init);
      forall i | 0 <= i < |m|
        ensures PairAt(ArrayBlocks(prefix, m, true), i, prefix + m[i].key, m[i].value)
      {
        assert i < |init| ==> PairAt(ArrayBlocks(prefix, init, true), i, prefix + init[i].key, init[i].value);
      }
    }
  }

  /** Key and value of pair i. */
  predicate PairAt(blocks: seq<string>, i: nat, key: string, value: string) {
    2 * i + 1 < |blocks| && blocks[2 * i] == key && blocks[2 * i + 1] == value
  }

  /** The command comes first, then the key unless it is empty, then the array. */
  lemma CommandShape(prefix: string, cmd: string, key: string, m: PhpArray<string>, readAll: bool)
    ensures var blocks := CommandBlocks(prefix, cmd, key, m, readAll);
      var n := if key == "" then 1 else 2;
      && |blocks| >= n && blocks[0] == cmd && (key != "" ==> blocks[1] == key)
      && blocks[n..] == ArrayBlocks(prefix, m, readAll)
  {
    hide ArrayBlocks;
  }

  function CommandBlocks(prefix: string, cmd: string, key: string, m: PhpArray<string>, readAll: bool): seq<string> {
    Header(cmd, key) + ArrayBlocks(prefix, m, readAll)
  }

  function Header(cmd: string, key: string): seq<string> {
    [cmd] + (if key == "" then [] else [key])
  }

  method FormatHeader(cmd: string, key: string) returns (buf: string)
    ensures buf == Blocks(Header(cmd, key))
  {
    SingleBlock(cmd);
    buf := AppendBlock("", cmd);
    if |key| > 0 {
      BlocksAppend([cmd], [key]);
      SingleBlock(key);
      buf := AppendBlock(buf, key);
    } else {
      assert [cmd] + [] == [cmd];
    }
  }

  /** ssdb_cmd_format_by_zval. The returned length is 0 (and no command is sent) iff the array is
      empty; otherwise the receiver takes the text apart into the command, the key unless it is
      empty, and the elements in order. */
  method CmdFormatByZval(prefix: string, cmd: string, key: string, params: PhpArray<string>, readAll: bool, fillPrefix: bool)
    returns (buf: string)
    ensures |buf| == 0 <==> params == []
    ensures params != [] ==>
      Unframe(buf) == Frames(CommandBlocks(if fillPrefix then prefix else "", cmd, key, params, readAll))
    ensures params != [] ==> buf == Message(CommandBlocks(if fillPrefix then prefix else "", cmd, key, params, readAll))
  {
    if |params| == 0 {
      return "";
    }
    ghost var pre := if fillPrefix then prefix else "";
    ghost var header := Header(cmd, key);
    buf := FormatHeader(cmd, key);
    assert header + [] == header;
    var k := 0;
    while k < |params|
      invariant 0 <= k <= |params|
      invariant buf == Blocks(header + ArrayBlocks(pre, params[..k], readAll))
    {
      assert params[..k + 1][..k] == params[..k];
      ghost var before := header + ArrayBlocks(pre, params[..k], readAll);
      ghost var entry := EntryBlocks(pre, params[k], readAll);
      assert header + ArrayBlocks(pre, params[..k + 1], readAll) == before + entry;
      BlocksAppend(before, entry);
      buf := AppendEntry(buf, prefix, params[k], readAll, fillPrefix);
      k := k + 1;
    }
    assert params[..|params|] == params;
    buf := buf + "\n";
    UnframeMessage(CommandBlocks(pre, cmd, key, params, readAll));
  }

  method AppendEntry(buf: string, prefix: string, p: Pair<string>, readAll: bool, fillPrefix: bool) returns (r: string)
    ensures r == buf + Blocks(EntryBlocks(if fillPrefix then prefix else "", p, readAll))
  {
    var key := if readAll then p.key else p.value;
    if !readAll && |key| <= 0 {
      ConcatEmpty(buf);
      return buf;
    }
    assert "" + key == key;
    if fillPrefix {
      var prefixed;
      prefixed, key := KeyPrefix(prefix, key);
    }
    r := AppendBlock(buf, key);
    SingleBlock(key);
    if readAll {
      BlocksAppend([key], [p.value]);
      SingleBlock(p.value);
      assert [key] + [p.value] == [key, p.value];
      Concat3(buf, Block(key), Block(p.value));
      r := AppendBlock(r, p.value);
    }
  }
}
