// The SSDB wire format: a message is a list of blocks, each "<length>\n<bytes>\n", closed by an
// empty line. Bytes are characters. Parse is the meaning of ssdb_sock_read on the whole
// byte stream, without its buffer and without the way the stream is cut into reads.
module Wire {
  import opened CStrings
  import opened Decimal

  // ---------- framing ----------

  function Block(s: string): string { ToText(|s|) + "\n" + s + "\n" }

  function Blocks(bs: seq<string>): string {
    if bs == [] then "" else Block(bs[0]) + Blocks(bs[1..])
  }

  function Message(bs: seq<string>): string { Blocks(bs) + "\n" }

  lemma Concat3(a: string, b: string, c: string)
    ensures a + (b + c) == (a + b) + c
  {
  }

  lemma ConcatEmpty(a: string)
    ensures a + "" == a && "" + a == a
  {
  }

  lemma {:induction false} BlocksAppend(a: seq<string>, b: seq<string>)
    ensures Blocks(a + b) == Blocks(a) + Blocks(b)
  {
    if a == [] {
      assert a + b == b;
    } else {
      BlocksAppend(a[1..], b);
      assert (a + b)[1..] == a[1..] + b;
      Concat3(Block(a[0]), Blocks(a[1..]), Blocks(b));
    }
  }

  /** For one: "get" with the key "a". */
  lemma GetMessage()
    ensures Message(["get", "a"]) == "3\nget\n1\na\n\n"
  {
    assert ["get", "a"][1..] == ["a"] && ["a"][1..] == [];
    assert ToText(3) == "3" && ToText(1) == "1";
  }

  // ---------- status words ----------

  datatype Status = Default | Ok | NotFound | Error | Fail | ClientError

  function StatusOf(payload: string): (st: Status)
    ensures st != Default
  {
    var word := CStr(payload);
    if word == "ok" then Ok
    else if word == "not_found" then NotFound
    else if word == "error" then Error
    else if word == "fail" then Fail
    else ClientError
  }

  /** The words are compared as C strings, and each has its own status. */
  lemma StatusWords(payload: string)
    ensures StatusOf(payload) == Ok <==> CStr(payload) == "ok"
    ensures StatusOf(payload) == NotFound <==> CStr(payload) == "not_found"
    ensures StatusOf(payload) == Error <==> CStr(payload) == "error"
    ensures StatusOf(payload) == Fail <==> CStr(payload) == "fail"
    ensures StatusOf(payload) == ClientError <==> CStr(payload) !in {"ok", "not_found", "error", "fail"}
  {
    WordsDiffer();
  }

  lemma WordsDiffer()
    ensures "ok" != "not_found" && "ok" != "error" && "ok" != "fail"
    ensures "not_found" != "error" && "not_found" != "fail" && "error" != "fail"
  {
    assert "ok"[0] == 'o' && "not_found"[0] == 'n' && "error"[0] == 'e' && "fail"[0] == 'f';
  }

  // ---------- reading ----------

  /** What ssdb_sock_read leaves: no response, a response, or a process that dies of the length it read. */
  datatype Reading = Null | Response(status: Status, blocks: seq<string>) | Fatal

  datatype Parsed = Parsed(reading: Reading, rest: string)

  function Finish(status: Status, blocks: seq<string>): Reading {
    if status == Default then Null else Response(status, blocks)
  }

  datatype LineResult = Line(text: string, rest: string) | Cut(rest: string)

  /** Bytes up to a newline, at most `room` of them; a longer line is given up one byte later. */
  function ReadLine(input: string, room: nat): (r: LineResult)
    ensures r.Line? ==> |r.rest| < |input|
  {
    if input == [] then Cut([])
    else if room == 0 then Cut(input[1..])
    else if input[0] == '\n' then Line("", input[1..])
    else match ReadLine(input[1..], room - 1)
      case Line(text, rest) => Line([input[0]] + text, rest)
      case Cut(rest) => Cut(rest)
  }

  const INT_MAX: int := 0x7FFF_FFFF

  /** Lengths the code dies of: a negative one below -1 becomes a huge size_t, and from 2^31 - 2 on the
      capacity to_read_buf_max + 1, computed in int, overflows. */
  predicate BadLength(n: int) { n <= -2 || n >= INT_MAX - 1 }

  function Max(a: int, b: int): int { if a > b then a else b }

  /** The blocks from here on; `max` is the capacity of the read buffer so far. */
  function Parse(first: bool, input: string, max: nat, status: Status, blocks: seq<string>): Parsed
    decreases |input|, 0
  {
    if !first && input != [] && input[0] == '\n' then Parsed(Finish(status, blocks), input[1..])
    else match ReadLine(input, max)
      case Cut(rest) => Parsed(Finish(status, blocks), rest)
      case Line(text, rest) => AfterLine(Atoi(text), rest, max, status, blocks)
  }

  function AfterLine(n: int, rest: string, max: nat, status: Status, blocks: seq<string>): Parsed
    decreases |rest|, 0
  {
    if BadLength(n) then Parsed(Fatal, rest)
    else if n == -1 then Parsed(Finish(status, blocks), rest)
    else if |rest| < n + 1 then Parsed(Finish(status, blocks), [])
    else if rest[n] != '\n' then Parsed(Finish(status, blocks), rest[n + 1..])
    else AfterBlock(rest[..n], rest[n + 1..], Max(max, n + 1), status, blocks)
  }

  function AfterBlock(payload: string, rest: string, max: nat, status: Status, blocks: seq<string>): Parsed
    decreases |rest|, 1
  {
    if status == Default then Parse(false, rest, max, StatusOf(payload), blocks)
    else Parse(false, rest, max, status, blocks + [payload])
  }

  /** ssdb_sock_read on a fresh connection. */
  function ParseAll(input: string): Parsed { Parse(true, input, 1024, Default, []) }

  // ---------- the reader on one block ----------

  /** Short enough for the reader's buffer. */
  predicate Sized(b: string) { |b| < INT_MAX - 1 }

  ghost predicate AllSized(bs: seq<string>) { forall b | b in bs :: Sized(b) }

  lemma {:induction false} ReadLineExact(line: string, rest: string, room: nat)
    requires '\n' !in line && |line| < room
    ensures ReadLine(line + "\n" + rest, room) == Line(line, rest)
  {
    if line == [] {
      assert line + "\n" + rest == ['\n'] + rest;
    } else {
      ReadLineExact(line[1..], rest, room - 1);
      assert (line + "\n" + rest)[1..] == line[1..] + "\n" + rest;
      assert line == [line[0]] + line[1..];
    }
  }

  lemma {:induction false} ReadLineUnfinished(line: string, room: nat)
    requires '\n' !in line && |line| <= room
    ensures ReadLine(line, room) == Cut([])
  {
    if line != [] {
      ReadLineUnfinished(line[1..], room - 1);
    }
  }

  lemma LengthLine(n: nat)
    requires n < INT_MAX
    ensures '\n' !in ToText(n) && '\0' !in ToText(n) && |ToText(n)| <= 10 && Atoi(ToText(n)) == n
  {
    DecDigits(n);
    DecLength(n, 10);
    AtoiDec(n, "");
    assert ToText(n) + "" == ToText(n);
  }

  /** A complete block is consumed and recorded. */
  lemma ParseBlock(first: bool, b: string, rest: string, max: nat, status: Status, blocks: seq<string>)
    requires Sized(b) && max >= 1024
    ensures Parse(first, Block(b) + rest, max, status, blocks)
         == AfterBlock(b, rest, Max(max, |b| + 1), status, blocks)
  {
    var line := ToText(|b|);
    LengthLine(|b|);
    var tail := b + "\n" + rest;
    assert Block(b) + rest == line + "\n" + tail;
    ReadLineExact(line, tail, max);
    DecDigits(|b|);
    assert (line + "\n" + tail)[0] == line[0];
    assert tail[..|b|] == b && tail[|b|] == '\n' && tail[|b| + 1..] == rest;
  }

  /** A block cut short before its last byte adds nothing. */
  lemma ParseCutBlock(first: bool, b: string, k: nat, max: nat, status: Status, blocks: seq<string>)
    requires Sized(b) && max >= 1024 && k < |Block(b)|
    ensures Parse(first, Block(b)[..k], max, status, blocks) == Parsed(Finish(status, blocks), [])
  {
    var line := ToText(|b|);
    LengthLine(|b|);
    DecDigits(|b|);
    var input := Block(b)[..k];
    assert input != [] ==> input[0] == line[0];
    if k <= |line| {
      assert input == line[..k];
      ReadLineUnfinished(input, max);
    } else {
      var tail := input[|line| + 1..];
      assert input == line + "\n" + tail;
      ReadLineExact(line, tail, max);
    }
  }

  // ---------- round trip ----------

  lemma MessageSplit(bs: seq<string>, rest: string)
    requires bs != []
    ensures Message(bs) + rest == Block(bs[0]) + (Message(bs[1..]) + rest)
  {
    Concat3(Block(bs[0]), Blocks(bs[1..]), "\n");
    Concat3(Block(bs[0]), Message(bs[1..]), rest);
  }

  lemma OneMore(done: seq<string>, bs: seq<string>)
    requires bs != []
    ensures (done + [bs[0]]) + bs[1..] == done + bs
  {
  }

  lemma {:induction false} ParseBlocks(bs: seq<string>, rest: string, max: nat, status: Status, blocks: seq<string>)
    requires AllSized(bs) && max >= 1024 && status != Default
    ensures Parse(false, Message(bs) + rest, max, status, blocks) == Parsed(Response(status, blocks + bs), rest)
    decreases |bs|
  {
    if bs == [] {
      assert Message(bs) + rest == ['\n'] + rest;
      assert blocks + bs == blocks;
    } else {
      var tail := Message(bs[1..]) + rest;
      MessageSplit(bs, rest);
      ParseBlock(false, bs[0], tail, max, status, blocks);
      ParseBlocks(bs[1..], rest, Max(max, |bs[0]| + 1), status, blocks + [bs[0]]);
      OneMore(blocks, bs);
    }
  }

  /** Reading a message gives back its status and its blocks and leaves what follows it unread. */
  lemma RoundTrip(word: string, bs: seq<string>, rest: string)
    requires Sized(word) && AllSized(bs)
    ensures ParseAll(Message([word] + bs) + rest) == Parsed(Response(StatusOf(word), bs), rest)
  {
    var tail := Message(bs) + rest;
    assert ([word] + bs)[1..] == bs;
    MessageSplit([word] + bs, rest);
    ParseBlock(true, word, tail, 1024, Default, []);
    ParseBlocks(bs, rest, Max(1024, |word| + 1), StatusOf(word), []);
    assert [] + bs == bs;
  }

  /** What a message is read as: its first block gives the status, by word, and the others are the blocks. */
  lemma MessageStatus(word: string, bs: seq<string>, rest: string)
    requires Sized(word) && AllSized(bs)
    ensures var p := ParseAll(Message([word] + bs) + rest);
      && p.rest == rest && p.reading.Response? && p.reading.blocks == bs
      && (p.reading.status == Ok <==> CStr(word) == "ok")
      && (p.reading.status == NotFound <==> CStr(word) == "not_found")
      && (p.reading.status == Error <==> CStr(word) == "error")
      && (p.reading.status == Fail <==> CStr(word) == "fail")
      && (p.reading.status == ClientError <==> CStr(word) !in {"ok", "not_found", "error", "fail"})
  {
    hide ParseAll, Message, StatusOf, CStr;
    RoundTrip(word, bs, rest);
    StatusWords(word);
  }

  lemma {:induction false} ReadLineWhole(line: string, rest: string, room: nat)
    requires '\n' !in line
    ensures var r := ReadLine(line + "\n" + rest, room); r.Line? ==> r == Line(line, rest)
  {
    if line == "" {
      assert line + "\n" + rest == ['\n'] + rest;
    } else if room > 0 {
      ReadLineWhole(line[1..], rest, room - 1);
      assert (line + "\n" + rest)[1..] == line[1..] + "\n" + rest;
      assert line == [line[0]] + line[1..];
    }
  }

  /** A block too long for the reader is never recorded. */
  lemma ParseLongBlock(first: bool, b: string, rest: string, max: nat, status: Status, blocks: seq<string>)
    requires !Sized(b)
    ensures Parse(first, Block(b) + rest, max, status, blocks).reading in {Fatal, Finish(status, blocks)}
  {
    var line := ToText(|b|);
    DecDigits(|b|);
    AtoiDec(|b|, "");
    ConcatEmpty(line);
    var tail := b + "\n" + rest;
    assert Block(b) + rest == line + "\n" + tail;
    assert (line + "\n" + tail)[0] == line[0];
    ReadLineWhole(line, tail, max);
  }

  lemma {:induction false} ParseLongBlocks(bs: seq<string>, rest: string, max: nat, status: Status, blocks: seq<string>)
    requires !AllSized(bs) && max >= 1024 && status != Default
    ensures Parse(false, Message(bs) + rest, max, status, blocks).reading != Response(status, blocks + bs)
    decreases |bs|
  {
    hide Parse, Block, Message;
    var tail := Message(bs[1..]) + rest;
    MessageSplit(bs, rest);
    if !Sized(bs[0]) {
      ParseLongBlock(false, bs[0], tail, max, status, blocks);
    } else {
      var b :| b in bs && !Sized(b);
      assert b in bs[1..];
      ParseBlock(false, bs[0], tail, max, status, blocks);
      ParseLongBlocks(bs[1..], rest, Max(max, |bs[0]| + 1), status, blocks + [bs[0]]);
      OneMore(blocks, bs);
    }
  }

  /** A message is read back exactly when its blocks are short enough for the buffer. */
  lemma RoundTripExactly(word: string, bs: seq<string>, rest: string)
    ensures ParseAll(Message([word] + bs) + rest) == Parsed(Response(StatusOf(word), bs), rest)
       <==> Sized(word) && AllSized(bs)
  {
    hide Parse, Block, Message, StatusOf;
    var all := [word] + bs;
    var tail := Message(bs) + rest;
    assert all[1..] == bs && all[0] == word;
    MessageSplit(all, rest);
    if !Sized(word) {
      ParseLongBlock(true, word, tail, 1024, Default, []);
    } else if AllSized(bs) {
      RoundTrip(word, bs, rest);
    } else {
      ParseBlock(true, word, tail, 1024, Default, []);
      ParseLongBlocks(bs, rest, Max(1024, |word| + 1), StatusOf(word), []);
      assert [] + bs == bs;
    }
  }

  // ---------- malformed messages ----------

  /** The capacity of the read buffer once the blocks are read. */
  function Room(max: nat, bs: seq<string>): (r: nat)
    ensures r >= max
    decreases |bs|
  {
    if bs == [] then max else Room(Max(max, |bs[0]| + 1), bs[1..])
  }

  lemma {:induction false} ParseOn(bs: seq<string>, tail: string, max: nat, status: Status, blocks: seq<string>)
    requires AllSized(bs) && max >= 1024 && status != Default
    ensures Parse(false, Blocks(bs) + tail, max, status, blocks)
         == Parse(false, tail, Room(max, bs), status, blocks + bs)
    decreases |bs|
  {
    hide Parse, Block;
    if bs == [] {
      assert Blocks(bs) + tail == tail && blocks + bs == blocks;
    } else {
      Concat3(Block(bs[0]), Blocks(bs[1..]), tail);
      ParseBlock(false, bs[0], Blocks(bs[1..]) + tail, max, status, blocks);
      ParseOn(bs[1..], tail, Max(max, |bs[0]| + 1), status, blocks + [bs[0]]);
      OneMore(blocks, bs);
    }
  }

  /** Behind whole blocks reading goes on with what is left. */
  lemma ParseAllOn(word: string, bs: seq<string>, tail: string)
    requires Sized(word) && AllSized(bs)
    ensures ParseAll(Blocks([word] + bs) + tail)
         == Parse(false, tail, Room(1024, [word] + bs), StatusOf(word), bs)
  {
    hide Parse, Block, StatusOf;
    var all := [word] + bs;
    assert all[1..] == bs && all[0] == word;
    Concat3(Block(word), Blocks(bs), tail);
    ParseBlock(true, word, Blocks(bs) + tail, 1024, Default, []);
    ParseOn(bs, tail, Max(1024, |word| + 1), StatusOf(word), []);
    assert [] + bs == bs;
  }

  /** What a length line that is no block's does: a number below -1, or one the buffer cannot take, kills
      the process; -1 ends the message; a block cut short, or not closed by a newline, is dropped and
      ends it; any other text that atoi reads as the length stands for it. */
  lemma MalformedLine(word: string, bs: seq<string>, line: string, rest: string)
    requires Sized(word) && AllSized(bs) && '\n' !in line && 0 < |line| < 1024
    ensures var n := Atoi(line);
      var p := ParseAll(Blocks([word] + bs) + (line + "\n" + rest));
      var got := Response(StatusOf(word), bs);
      if n <= -2 || n >= 2147483646 then p.reading == Fatal
      else if n == -1 then p == Parsed(got, rest)
      else if |rest| <= n then p == Parsed(got, "")
      else if rest[n] != '\n' then p == Parsed(got, rest[n + 1..])
      else p == ParseAll(Blocks([word] + (bs + [rest[..n]])) + rest[n + 1..])
  {
    hide ParseAll, Parse, StatusOf, Blocks, Room, ReadLine, Atoi, AfterBlock;
    var n := Atoi(line);
    LineOn(word, bs, line, rest);
    if 0 <= n < |rest| && n < INT_MAX - 1 && rest[n] == '\n' {
      LineBlock(word, bs, rest[..n], rest[n + 1..]);
    }
  }

  lemma LineOn(word: string, bs: seq<string>, line: string, rest: string)
    requires Sized(word) && AllSized(bs) && '\n' !in line && 0 < |line| < 1024
    ensures ParseAll(Blocks([word] + bs) + (line + "\n" + rest))
         == AfterLine(Atoi(line), rest, Room(1024, [word] + bs), StatusOf(word), bs)
  {
    hide ParseAll, StatusOf, Blocks, Room, ReadLine, AfterLine, Atoi;
    ParseAllOn(word, bs, line + "\n" + rest);
    assert (line + "\n" + rest)[0] == line[0];
    ReadLineExact(line, rest, Room(1024, [word] + bs));
  }

  lemma LineBlock(word: string, bs: seq<string>, b: string, rest: string)
    requires Sized(word) && AllSized(bs) && Sized(b)
    ensures AfterBlock(b, rest, Max(Room(1024, [word] + bs), |b| + 1), StatusOf(word), bs)
         == ParseAll(Blocks([word] + (bs + [b])) + rest)
  {
    hide ParseAll, Parse, StatusOf, Blocks, Room;
    ParseAllOn(word, bs + [b], rest);
    RoomLast(1024, [word] + bs, b);
    assert [word] + (bs + [b]) == [word] + bs + [b];
  }

  /** The same before any block, where there is nothing to report; an empty line stands for the length 0. */
  lemma FirstLine(line: string, rest: string)
    requires '\n' !in line && |line| < 1024
    ensures var n := Atoi(line);
      var p := ParseAll(line + "\n" + rest);
      if n <= -2 || n >= 2147483646 then p.reading == Fatal
      else if n == -1 then p == Parsed(Null, rest)
      else if |rest| <= n then p == Parsed(Null, "")
      else if rest[n] != '\n' then p == Parsed(Null, rest[n + 1..])
      else p == ParseAll(Block(rest[..n]) + rest[n + 1..])
  {
    hide Parse, StatusOf, Block, ReadLine, Atoi, AfterBlock;
    var n := Atoi(line);
    FirstLineOn(line, rest);
    if 0 <= n < |rest| && n < INT_MAX - 1 {
      ParseBlock(true, rest[..n], rest[n + 1..], 1024, Default, []);
    }
  }

  lemma FirstLineOn(line: string, rest: string)
    requires '\n' !in line && |line| < 1024
    ensures ParseAll(line + "\n" + rest) == AfterLine(Atoi(line), rest, 1024, Default, [])
  {
    hide AfterLine, Atoi, ReadLine;
    ReadLineExact(line, rest, 1024);
  }

  lemma {:induction false} RoomLast(max: nat, bs: seq<string>, b: string)
    ensures Room(max, bs + [b]) == Max(Room(max, bs), |b| + 1)
    decreases |bs|
  {
    if bs == [] {
      assert [] + [b] == [b] && [b][1..] == [];
    } else {
      assert (bs + [b])[1..] == bs[1..] + [b];
      RoomLast(Max(max, |bs[0]| + 1), bs[1..], b);
    }
  }

  /** A length line that fills the buffer ends the message, one byte further on. */
  lemma OverlongLine(word: string, bs: seq<string>, line: string, c: char, rest: string)
    requires Sized(word) && AllSized(bs) && '\n' !in line && |line| == Room(1024, [word] + bs)
    ensures ParseAll(Blocks([word] + bs) + (line + ([c] + rest))) == Parsed(Response(StatusOf(word), bs), rest)
  {
    hide ParseAll, StatusOf, Blocks, Room;
    ParseAllOn(word, bs, line + ([c] + rest));
    assert (line + ([c] + rest))[0] == line[0];
    ReadLineFull(line, c, rest, |line|);
  }

  lemma {:induction false} ReadLineFull(line: string, c: char, rest: string, room: nat)
    requires '\n' !in line && |line| == room
    ensures ReadLine(line + ([c] + rest), room) == Cut(rest)
  {
    if line == "" {
      assert line + ([c] + rest) == [c] + rest;
    } else {
      assert (line + ([c] + rest))[1..] == line[1..] + ([c] + rest);
      ReadLineFull(line[1..], c, rest, room - 1);
    }
  }

  // ---------- truncation ----------

  /** The blocks of bs whose bytes all lie within the first n. */
  function WholeBlocks(bs: seq<string>, n: nat): (w: seq<string>)
    ensures w <= bs
  {
    if bs == [] || n < |Block(bs[0])| then [] else
      assert bs == [bs[0]] + bs[1..];
      [bs[0]] + WholeBlocks(bs[1..], n - |Block(bs[0])|)
  }

  lemma {:induction false} ParseTruncated(bs: seq<string>, k: nat, max: nat, status: Status, blocks: seq<string>)
    requires AllSized(bs) && max >= 1024 && status != Default && k <= |Message(bs)|
    ensures Parse(false, Message(bs)[..k], max, status, blocks).reading
         == Response(status, blocks + WholeBlocks(bs, k))
    decreases |bs|
  {
    if bs == [] {
      assert blocks + [] == blocks;
    } else {
      var b := bs[0];
      MessageCut(bs, k);
      if k < |Block(b)| {
        ParseCutBlock(false, b, k, max, status, blocks);
        assert blocks + [] == blocks;
      } else {
        var k' := k - |Block(b)|;
        ParseBlock(false, b, Message(bs[1..])[..k'], max, status, blocks);
        ParseTruncated(bs[1..], k', Max(max, |b| + 1), status, blocks + [b]);
        WholeStep(bs, k, blocks);
      }
    }
  }

  lemma MessageCut(bs: seq<string>, k: nat)
    requires bs != [] && k <= |Message(bs)|
    ensures k < |Block(bs[0])| ==> Message(bs)[..k] == Block(bs[0])[..k]
    ensures k >= |Block(bs[0])| ==> k - |Block(bs[0])| <= |Message(bs[1..])|
    ensures k >= |Block(bs[0])| ==> Message(bs)[..k] == Block(bs[0]) + Message(bs[1..])[..k - |Block(bs[0])|]
  {
    Concat3(Block(bs[0]), Blocks(bs[1..]), "\n");
    assert Message(bs) == Block(bs[0]) + Message(bs[1..]);
  }

  lemma WholeStep(bs: seq<string>, k: nat, done: seq<string>)
    requires bs != [] && k >= |Block(bs[0])|
    ensures (done + [bs[0]]) + WholeBlocks(bs[1..], k - |Block(bs[0])|) == done + WholeBlocks(bs, k)
  {
  }

  /** What may be reported of a message of which only the blocks w arrived whole. */
  function Arrived(w: seq<string>): Reading {
    if w == [] then Null else Response(StatusOf(w[0]), w[1..])
  }

  /** On every prefix of a message: no response unless the status block is whole, otherwise the
      true status and exactly the blocks received whole. */
  lemma Truncation(word: string, bs: seq<string>, k: nat)
    requires Sized(word) && AllSized(bs) && k <= |Message([word] + bs)|
    ensures ParseAll(Message([word] + bs)[..k]).reading == Arrived(WholeBlocks([word] + bs, k))
  {
    hide Parse, Block, Message, StatusOf;
    var all := [word] + bs;
    assert all[1..] == bs && all[0] == word;
    MessageCut(all, k);
    if k < |Block(word)| {
      ParseCutBlock(true, word, k, 1024, Default, []);
    } else {
      var k' := k - |Block(word)|;
      ParseBlock(true, word, Message(bs)[..k'], 1024, Default, []);
      ParseTruncated(bs, k', Max(1024, |word| + 1), StatusOf(word), []);
      assert [] + WholeBlocks(bs, k') == WholeBlocks(bs, k');
      assert WholeBlocks(all, k)[1..] == WholeBlocks(bs, k');
    }
  }

  // ---------- the receiving server's view of a command ----------

  datatype Split = Whole(line: string, rest: string) | Unfinished

  function SplitLine(s: string): (r: Split)
    ensures r.Whole? ==> |r.rest| < |s|
  {
    if s == "" then Unfinished
    else if s[0] == '\n' then Whole("", s[1..])
    else match SplitLine(s[1..])
      case Whole(line, rest) => Whole([s[0]] + line, rest)
      case Unfinished => Unfinished
  }

  datatype Frames = Frames(blocks: seq<string>) | Malformed

  /** Taking a message apart again; the whole input must be one message. */
  function Unframe(s: string): Frames
    decreases |s|
  {
    match SplitLine(s)
    case Unfinished => Malformed
    case Whole(line, rest) =>
      if line == "" then (if rest == "" then Frames([]) else Malformed) else
        var n := Atoi(line);
        if n < 0 || |rest| < n + 1 || rest[n] != '\n' then Malformed
        else match Unframe(rest[n + 1..])
          case Frames(bs) => Frames([rest[..n]] + bs)
          case Malformed => Malformed
  }

  lemma {:induction false} SplitLineExact(line: string, rest: string)
    requires '\n' !in line
    ensures SplitLine(line + "\n" + rest) == Whole(line, rest)
  {
    if line == "" {
      assert line + "\n" + rest == ['\n'] + rest;
    } else {
      SplitLineExact(line[1..], rest);
      assert (line + "\n" + rest)[1..] == line[1..] + "\n" + rest;
      assert line == [line[0]] + line[1..];
    }
  }

  lemma UnframeBlock(b: string, tail: string)
    ensures Unframe(Block(b) + tail) == match Unframe(tail)
      case Frames(bs) => Frames([b] + bs)
      case Malformed => Malformed
  {
    var line := ToText(|b|);
    var rest := b + "\n" + tail;
    DecDigits(|b|);
    AtoiDec(|b|, "");
    ConcatEmpty(line);
    assert Block(b) + tail == line + "\n" + rest;
    SplitLineExact(line, rest);
    assert rest[..|b|] == b && rest[|b| + 1..] == tail;
  }

  /** Every list of blocks, of any size, can be recovered from its message. */
  lemma {:induction false} UnframeMessage(bs: seq<string>)
    ensures Unframe(Message(bs)) == Frames(bs)
  {
    if bs == [] {
      assert Message(bs) == "" + "\n" + "";
      SplitLineExact("", "");
    } else {
      UnframeMessage(bs[1..]);
      MessageSplit(bs, "");
      ConcatEmpty(Message(bs));
      ConcatEmpty(Message(bs[1..]));
      UnframeBlock(bs[0], Message(bs[1..]));
      assert [bs[0]] + bs[1..] == bs;
    }
  }
}
