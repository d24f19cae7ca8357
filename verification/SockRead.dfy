// ssdb_sock_read: the byte-driven reader with its growable buffer, proved against Wire.Parse
// for every way the stream cuts the bytes.
module SockRead {
  import opened CStrings
  import opened Decimal
  import opened Wire
  import opened Links
  import opened Responses

  /** A php_stream: the bytes that will still arrive before end of file, and those written so far.
      A read returns some non-empty part of what was asked for; which part is up to the network. */
  class Stream {
    var pending: string
    var sent: string

    constructor (bytes: string)
      ensures pending == bytes && sent == ""
    {
      pending := bytes;
      sent := "";
    }

    method Write(bytes: string)
      modifies this`sent
      ensures sent == old(sent) + bytes
    {
      sent := sent + bytes;
    }

    method Read(n: nat) returns (chunk: string)
      modifies this`pending
      ensures |chunk| <= n && old(pending) == chunk + pending
      ensures n > 0 && old(pending) != "" ==> chunk != ""
    {
      if n == 0 || pending == "" {
        return "";
      }
      var k :| 1 <= k <= n && k <= |pending|;
      chunk := pending[..k];
      pending := pending[k..];
    }
  }

  // ---------- facts about the buffer's contents ----------

  predicate Zeroed(s: string, lo: nat) { forall i | lo <= i < |s| :: s[i] == '\0' }

  /** atoi on the zero-filled buffer sees the current length line only. */
  lemma AtoiOfBuffer(s: string, n: nat)
    requires n < |s| && Zeroed(s, n)
    ensures Atoi(s) == Atoi(s[..n])
  {
    assert s == s[..n] + s[n..];
    AtoiBeforeNul(s[..n], s[n..]);
  }

  /** strcmp on the buffer sees the payload up to the NUL that replaced its newline. */
  lemma StatusOfBuffer(s: string, n: nat)
    requires n < |s| && s[n] == '\0'
    ensures StatusOf(s) == StatusOf(s[..n])
  {
    assert s == s[..n] + s[n..];
    CStrBeforeNul(s[..n], s[n..]);
  }

  // ---------- facts about Parse ----------

  lemma ParseFullLine(line: string, c: char, rest: string, max: nat, st: Status, bs: seq<string>)
    requires '\n' !in line && |line| == max
    ensures Parse(true, line + ([c] + rest), max, st, bs) == Parsed(Finish(st, bs), rest)
  {
    ReadLineFull(line, c, rest, max);
  }

  lemma ParseLineEnd(line: string, rest: string, max: nat, st: Status, bs: seq<string>)
    requires '\n' !in line && |line| < max
    ensures Parse(true, line + (['\n'] + rest), max, st, bs) == AfterLine(Atoi(line), rest, max, st, bs)
  {
    assert line + (['\n'] + rest) == line + "\n" + rest;
    ReadLineExact(line, rest, max);
  }

  lemma ParseLineEof(first: bool, line: string, max: nat, st: Status, bs: seq<string>)
    requires '\n' !in line && |line| <= max
    ensures Parse(first, line, max, st, bs) == Parsed(Finish(st, bs), "")
  {
    ReadLineUnfinished(line, max);
  }

  lemma AfterWholePayload(got: string, rest: string, max: nat, st: Status, bs: seq<string>)
    requires 0 < |got| <= max && |got| < INT_MAX
    ensures AfterLine(|got| - 1, got + rest, max, st, bs)
         == if got[|got| - 1] != '\n' then Parsed(Finish(st, bs), rest)
            else AfterBlock(got[..|got| - 1], rest, max, st, bs)
  {
    var n := |got| - 1;
    assert (got + rest)[n] == got[n];
    assert (got + rest)[..n] == got[..n];
    assert (got + rest)[n + 1..] == rest;
  }

  // ---------- the reader ----------

  datatype Outcome = Continue | Break | Abort

  /** The local variables of ssdb_sock_read. */
  class Reader {
    var readStep: nat
    var expected: nat
    var max: nat
    var total: nat
    var buf: array<char>
    const response: ResponseObj

    /** The capacity fits an int, with the byte behind it, which is never written. */
    ghost predicate Base()
      reads this, buf, response, response.nodes
    {
      response.Valid() && 1024 <= max < INT_MAX && buf.Length == max + 1 && total <= max && buf[max] == '\0'
    }

    /** In length mode everything behind the fill mark is zero; in payload mode fill mark plus
        remaining bytes is the announced length plus one, and fits the buffer. */
    ghost predicate Valid()
      reads this, buf, response, response.nodes
    {
      && Base()
      && (readStep == 0 || readStep == 1 || readStep == 3)
      && (readStep == 3 ==> total == 0)
      && (readStep != 1 ==> Zeroed(buf[..], total) && '\n' !in buf[..total])
      && (readStep == 1 ==> 0 < expected && total + expected <= max)
    }

    /** What the rest of the run makes of the bytes `input` still to come. */
    ghost function Meaning(input: string): Parsed
      reads this, buf, response, response.nodes
      requires Valid()
    {
      if readStep == 1 then
        AfterLine(total + expected - 1, buf[..total] + input, max, response.status, response.Contents())
      else
        Parse(readStep == 0, buf[..total] + input, max, response.status, response.Contents())
    }

    ghost function Finished(): Reading
      reads this, response, response.nodes
    {
      Finish(response.status, response.Contents())
    }

    constructor ()
      ensures Valid() && fresh(buf) && fresh(response) && response.nodes == []
      ensures forall input :: Meaning(input) == ParseAll(input)
    {
      response := new ResponseObj();
      readStep := 0;
      expected := 1;
      max := 1024;
      total := 0;
      buf := new char[1025](_ => '\0');
      new;
      assert buf[..total] == "";
      assert forall input: string :: "" + input == input;
    }

    /** memset(to_read_buf, 0, n). */
    method Clear(n: nat)
      requires n <= buf.Length
      modifies buf
      ensures forall i | 0 <= i < n :: buf[i] == '\0'
      ensures forall i | n <= i < buf.Length :: buf[i] == old(buf[i])
    {
      forall i | 0 <= i < n {
        buf[i] := '\0';
      }
    }

    /** One pass of the loop in length mode (read_step 0 or 3). */
    method LengthStep(stream: Stream) returns (o: Outcome)
      requires Valid() && readStep != 1
      modifies this, buf, stream`pending
      ensures Valid() && (buf == old(buf) || fresh(buf))
      ensures o == Continue ==> Meaning(stream.pending) == old(Meaning(stream.pending))
      ensures o == Continue ==> |stream.pending| < |old(stream.pending)|
      ensures o == Break ==> old(Meaning(stream.pending)) == Parsed(Finished(), stream.pending)
      ensures o == Abort ==> old(Meaning(stream.pending)) == Parsed(Fatal, stream.pending)
    {
      var chunk := stream.Read(1);
      if |chunk| == 0 {
        ConcatEmpty(buf[..total]);
        ParseLineEof(readStep == 0, buf[..total], max, response.status, response.Contents());
        return Break;
      }
      assert old(stream.pending) == [chunk[0]] + stream.pending;
      o := TakeByte(chunk[0], stream.pending);
    }

    /** The byte c of a length line, or of the empty line that ends the message. */
    method TakeByte(c: char, ghost rest: string) returns (o: Outcome)
      requires Valid() && readStep != 1
      modifies this, buf
      ensures Valid() && (buf == old(buf) || fresh(buf))
      ensures o == Continue ==> Meaning(rest) == old(Meaning([c] + rest))
      ensures o == Break ==> old(Meaning([c] + rest)) == Parsed(Finished(), rest)
      ensures o == Abort ==> old(Meaning([c] + rest)) == Parsed(Fatal, rest)
    {
      ghost var line := buf[..total];
      if total + 1 > max {
        ParseFullLine(line, c, rest, max, response.status, response.Contents());
        return Break;
      }
      if readStep == 3 {
        ConcatEmpty([c] + rest);
        if c == '\n' {
          return Break;
        }
        readStep := 0;
      }
      if c == '\n' {
        ParseLineEnd(line, rest, max, response.status, response.Contents());
        o := BeginPayload(rest);
      } else {
        Append(c);
        Concat3(line, [c], rest);
        o := Continue;
      }
    }

    /** memcpy(to_read_buf + to_read_buf_total, buf, 1). */
    method Append(c: char)
      requires Valid() && readStep == 0 && total < max && c != '\n'
      modifies this`total, buf
      ensures Valid() && buf[..total] == old(buf[..total]) + [c]
    {
      buf[total] := c;
      total := total + 1;
    }

    /** A length line is complete: make room for its payload. */
    method BeginPayload(ghost rest: string) returns (o: Outcome)
      requires Valid() && readStep == 0 && total < max
      modifies this, buf
      ensures Valid() && (buf == old(buf) || fresh(buf))
      ensures var before := AfterLine(Atoi(old(buf[..total])), rest, old(max), response.status, response.Contents());
        match o
        case Continue => Meaning(rest) == before
        case Break => before == Parsed(Finished(), rest)
        case Abort => before == Parsed(Fatal, rest)
    {
      var n := ReadLength();
      if BadLength(n) {
        return Abort;
      }
      if n + 1 == 0 {
        return Break;
      }
      StartPayload(n + 1);
      ConcatEmpty(rest);
      o := Continue;
    }

    method ReadLength() returns (n: int)
      requires Valid() && readStep == 0
      ensures n == Atoi(buf[..total])
    {
      n := Atoi(buf[..]);
      AtoiOfBuffer(buf[..], total);
      assert buf[..][..total] == buf[..total];
    }

    method StartPayload(size: nat)
      requires Valid() && readStep == 0 && 0 < size < INT_MAX
      modifies this, buf
      ensures Valid() && (buf == old(buf) || fresh(buf))
      ensures readStep == 1 && expected == size && total == 0 && max == Max(old(max), size)
    {
      expected := size;
      if expected > max {
        max := expected;
        buf := new char[max + 1](_ => '\0');
      }
      readStep := 1;
      Clear(expected);
      total := 0;
    }

    /** One pass of the loop in payload mode (read_step 1). */
    method PayloadStep(stream: Stream) returns (o: Outcome)
      requires Valid() && readStep == 1
      modifies this, buf, stream`pending, response, response.nodes
      ensures buf == old(buf) && response.Valid()
      ensures o == Continue ==> Valid()
      ensures forall b | b in response.nodes :: b in old(response.nodes) || fresh(b)
      ensures o == Continue ==> Meaning(stream.pending) == old(Meaning(stream.pending))
      ensures o == Continue ==> |stream.pending| < |old(stream.pending)|
      ensures o == Break ==> old(Meaning(stream.pending)) == Parsed(Finished(), stream.pending)
      ensures o != Abort
    {
      var chunk := stream.Read(expected);
      if |chunk| == 0 {
        ConcatEmpty(buf[..total]);
        return Break;
      }
      o := TakeChunk(chunk, stream.pending);
    }

    method TakeChunk(chunk: string, ghost rest: string) returns (o: Outcome)
      requires Valid() && readStep == 1 && 0 < |chunk| <= expected
      modifies this, buf, response, response.nodes
      ensures buf == old(buf) && response.Valid()
      ensures forall b | b in response.nodes :: b in old(response.nodes) || fresh(b)
      ensures o == Break || (o == Continue && Valid())
      ensures old(Meaning(chunk + rest)) == if o == Continue then Meaning(rest) else Parsed(Finished(), rest)
    {
      Concat3(buf[..total], chunk, rest);
      Fill(chunk);
      if expected != 0 {
        return Continue;
      }
      o := WholePayload(rest);
    }

    /** php_stream_read straight into the buffer. */
    method Fill(chunk: string)
      requires Valid() && readStep == 1 && 0 < |chunk| <= expected
      modifies this`total, this`expected, buf
      ensures Base() && total == old(total) + |chunk| && expected == old(expected) - |chunk|
      ensures buf[..total] == old(buf[..total]) + chunk
    {
      forall i | 0 <= i < |chunk| {
        buf[total + i] := chunk[i];
      }
      total := total + |chunk|;
      expected := expected - |chunk|;
    }

    /** The announced number of bytes is in the buffer. */
    method WholePayload(ghost rest: string) returns (o: Outcome)
      requires Base() && readStep == 1 && expected == 0 && 0 < total
      modifies this, buf, response, response.nodes
      ensures buf == old(buf) && response.Valid()
      ensures forall b | b in response.nodes :: b in old(response.nodes) || fresh(b)
      ensures o == Break || (o == Continue && Valid())
      ensures var before := AfterLine(old(total) - 1, old(buf[..total]) + rest, old(max),
                                      old(response.status), old(response.Contents()));
        before == if o == Continue then Meaning(rest) else Parsed(Finished(), rest)
    {
      hide Parse, AfterLine, AfterBlock, Data, Linked;
      AfterWholePayload(buf[..total], rest, max, response.status, response.Contents());
      if buf[total - 1] != '\n' {
        return Break;
      }
      assert buf[..total][..total - 1] == buf[..total - 1];
      ghost var before := AfterBlock(buf[..total - 1], rest, max, response.status, response.Contents());
      Record(rest);
      assert before == Parse(false, rest, max, response.status, response.Contents());
      ToLengthMode();
      ConcatEmpty(rest);
      o := Continue;
    }

    /** The payload becomes the status or the next block. */
    method Record(ghost rest: string)
      requires Base() && 0 < total
      modifies buf, response, response.nodes
      ensures Base()
      ensures forall b | b in response.nodes :: b in old(response.nodes) || fresh(b)
      ensures AfterBlock(old(buf[..total - 1]), rest, max, old(response.status), old(response.Contents()))
           == Parse(false, rest, max, response.status, response.Contents())
    {
      hide Parse, StatusOf, Data, Linked;
      buf[total - 1] := '\0';
      assert buf[..total - 1] == old(buf[..total - 1]);
      if response.status == Default {
        RecordStatus();
      } else {
        ghost var added := response.AddBlock(buf[..total - 1]);
      }
    }

    method RecordStatus()
      requires Base() && 0 < total && buf[total - 1] == '\0'
      modifies response`status
      ensures Base() && response.status == StatusOf(buf[..total - 1])
    {
      StatusOfBuffer(buf[..], total - 1);
      assert buf[..][..total - 1] == buf[..total - 1];
      response.status := StatusOf(buf[..]);
    }

    method ToLengthMode()
      requires Base()
      modifies this, buf
      ensures Valid() && buf == old(buf) && max == old(max) && readStep == 3 && total == 0
    {
      expected := 1;
      readStep := 3;
      Clear(max);
      total := 0;
    }

    /** One pass of the loop. */
    method Step(stream: Stream) returns (o: Outcome)
      requires Valid()
      modifies this, buf, stream`pending, response, response.nodes
      ensures (buf == old(buf) || fresh(buf)) && response.Valid()
      ensures forall b | b in response.nodes :: b in old(response.nodes) || fresh(b)
      ensures match o
        case Continue =>
          Valid() && Meaning(stream.pending) == old(Meaning(stream.pending)) && |stream.pending| < |old(stream.pending)|
        case Break => old(Meaning(stream.pending)) == Parsed(Finished(), stream.pending)
        case Abort => old(Meaning(stream.pending)) == Parsed(Fatal, stream.pending)
    {
      if readStep == 0 || readStep == 3 {
        o := LengthStep(stream);
      } else {
        o := PayloadStep(stream);
      }
    }
  }

  // ---------- the whole run ----------

  /** ssdb_sock_read after its end-of-file check: for every way the stream cuts its bytes, the
      result is what Parse says of the bytes, and what Parse leaves over is still unread. */
  method ReadResponse(stream: Stream) returns (response: ResponseObj?, fatal: bool)
    modifies stream`pending
    ensures var p := ParseAll(old(stream.pending));
      && stream.pending == p.rest
      && (fatal <==> p.reading == Fatal)
      && (response == null <==> p.reading == Null || p.reading == Fatal)
      && (response != null ==> fresh(response) && (forall b | b in response.nodes :: fresh(b)) && response.Valid()
                               && p.reading == Response(response.status, response.Contents()))
  {
    var reader := new Reader();
    ghost var target := ParseAll(stream.pending);
    var o := Continue;
    while o == Continue
      invariant fresh(reader) && fresh(reader.buf) && fresh(reader.response)
      invariant forall i | 0 <= i < |reader.response.nodes| :: fresh(reader.response.nodes[i])
      invariant o == Continue ==> reader.Valid() && reader.Meaning(stream.pending) == target
      invariant o == Break ==> reader.response.Valid() && target == Parsed(reader.Finished(), stream.pending)
      invariant o == Abort ==> target == Parsed(Fatal, stream.pending)
      decreases o == Continue, |stream.pending|
    {
      o := reader.Step(stream);
      assert forall i | 0 <= i < |reader.response.nodes| :: reader.response.nodes[i] in reader.response.nodes;
    }
    if o == Abort {
      return null, true;
    }
    if reader.response.status == Default {
      return null, false;
    }
    return reader.response, false;
  }
}
