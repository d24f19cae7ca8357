// ssdb_check_eof, resend_auth, ssdb_sock_write and ssdb_sock_read: reconnecting when the
// connection was lost, under every script of what the network does.
module Reconnect {
  import opened CStrings
  import opened Wire
  import opened Responses
  import opened SockRead

  datatype Option<T> = None | Some(value: T)

  /** What a call ends in: 0, -1, or a crash of the process (one ssdb_sock_read dies of, or a
      null dereference). */
  datatype Result = Success | Failure | Died

  datatype SockStatus = FAILED | DISCONNECTED | UNKNOWN | CONNECTED

  /** The network as an oracle: the answers to php_stream_eof in order (true: the connection is
      lost), and the outcome of each connection attempt (None: refused; Some: accepted, with the
      bytes that will arrive on it). Once the lists are used up the network stays up. */
  class Network {
    var eofs: seq<bool>
    var connects: seq<Option<string>>

    constructor (eofs: seq<bool>, connects: seq<Option<string>>)
      ensures this.eofs == eofs && this.connects == connects
    {
      this.eofs, this.connects := eofs, connects;
    }

    /** php_stream_eof. */
    method Eof() returns (eof: bool)
      modifies this`eofs
      ensures old(eofs) == [] ==> !eof && eofs == []
      ensures old(eofs) != [] ==> eof == old(eofs)[0] && eofs == old(eofs)[1..]
    {
      if eofs == [] {
        return false;
      }
      eof := eofs[0];
      eofs := eofs[1..];
    }

    /** php_stream_xport_create. */
    method Connect() returns (s: Stream?)
      modifies this`connects
      ensures s != null ==> fresh(s) && s.sent == ""
      ensures old(connects) == [] ==> s != null && s.pending == "" && connects == []
      ensures old(connects) != [] ==> (s == null <==> old(connects)[0] == None) && connects == old(connects)[1..]
      ensures old(connects) != [] && s != null ==> s.pending == old(connects)[0].value
    {
      if connects == [] {
        s := new Stream("");
        return;
      }
      var answer := connects[0];
      connects := connects[1..];
      if answer == None {
        s := null;
      } else {
        s := new Stream(answer.value);
      }
    }
  }

  /** How many connection attempts it takes until the connection is not lost any more. */
  function Needed(lost: bool, eofs: seq<bool>, connects: seq<Option<string>>): nat
    decreases |eofs| + |connects|
  {
    if !lost then 0
    else if connects != [] && connects[0] == None then 1 + Needed(true, eofs, connects[1..])
    else if eofs == [] then 1
    else 1 + Needed(eofs[0], eofs[1..], if connects == [] then [] else connects[1..])
  }

  function Count<T(==)>(s: seq<T>, x: T): nat {
    if s == [] then 0 else (if s[0] == x then 1 else 0) + Count(s[1..], x)
  }

  /** No more attempts are needed than there are lost connections and refusals. */
  lemma {:induction false} NeededAtMost(lost: bool, eofs: seq<bool>, connects: seq<Option<string>>)
    ensures Needed(lost, eofs, connects) <= (if lost then 1 else 0) + Count(eofs, true) + Count(connects, None)
    decreases |eofs| + |connects|
  {
    if lost {
      if connects != [] && connects[0] == None {
        NeededAtMost(true, eofs, connects[1..]);
      } else if eofs != [] {
        NeededAtMost(eofs[0], eofs[1..], if connects == [] then [] else connects[1..]);
      }
    }
  }

  /** The connection the attempts lead to, and what is left of the script then. */
  datatype Landing = Landing(bytes: string, eofs: seq<bool>, connects: seq<Option<string>>)

  function Land(lost: bool, eofs: seq<bool>, connects: seq<Option<string>>, bytes: string): Landing
    decreases |eofs| + |connects|
  {
    if !lost then Landing(bytes, eofs, connects)
    else if connects != [] && connects[0] == None then Land(true, eofs, connects[1..], "")
    else
      var accepted := if connects == [] then "" else connects[0].value;
      var others := if connects == [] then [] else connects[1..];
      if eofs == [] then Landing(accepted, [], others) else Land(eofs[0], eofs[1..], others, accepted)
  }

  /** So many refusals. */
  function Refusals(n: nat): (s: seq<Option<string>>)
    ensures |s| == n && forall i | 0 <= i < n :: s[i] == None
  {
    if n == 0 then [] else [None] + Refusals(n - 1)
  }

  /** Each refused attempt counts, and asks for no check. */
  lemma {:induction false} RefusalsCount(n: nat, eofs: seq<bool>, connects: seq<Option<string>>, bytes: string)
    ensures Needed(true, eofs, Refusals(n) + connects) == n + Needed(true, eofs, connects)
    ensures n > 0 ==> Land(true, eofs, Refusals(n) + connects, bytes) == Land(true, eofs, connects, "")
  {
    if n == 0 {
      assert Refusals(0) + connects == connects;
    } else {
      assert (Refusals(n) + connects)[1..] == Refusals(n - 1) + connects;
      RefusalsCount(n - 1, eofs, connects, "");
      if n == 1 {
        assert Refusals(0) + connects == connects;
      }
    }
  }

  /** How often in a row the connection is found lost. */
  function Losses(eofs: seq<bool>): (n: nat)
    ensures n <= |eofs|
  {
    if eofs != [] && eofs[0] then 1 + Losses(eofs[1..]) else 0
  }

  /** What is left of a script after n answers. */
  function Later<T>(s: seq<T>, n: nat): seq<T> { if n <= |s| then s[n..] else [] }

  /** Where no attempt is refused, one more is needed than the connection is found lost at once again; what
      is read then is what arrives on the last of these connections, and the checks and attempts used are
      gone from the script. */
  lemma {:induction false} LossesCount(eofs: seq<bool>, connects: seq<Option<string>>, bytes: string)
    requires forall i | 0 <= i < |connects| :: connects[i] != None
    ensures var n := Losses(eofs);
      && Needed(true, eofs, connects) == n + 1
      && Land(true, eofs, connects, bytes)
         == Landing(if n < |connects| then connects[n].value else "", Later(eofs, n + 1), Later(connects, n + 1))
  {
    if eofs != [] && eofs[0] {
      var others := if connects == [] then [] else connects[1..];
      LossesCount(eofs[1..], others, if connects == [] then "" else connects[0].value);
    }
  }

  /** The attempts a check of the connection needs, and where they lead. */
  function Attempts(eofs: seq<bool>, connects: seq<Option<string>>): nat {
    if eofs == [] then 0 else Needed(eofs[0], eofs[1..], connects)
  }

  function Landed(eofs: seq<bool>, connects: seq<Option<string>>, bytes: string): Landing {
    if eofs == [] then Landing(bytes, [], connects) else Land(eofs[0], eofs[1..], connects, bytes)
  }

  /** The next two checks find the connection alive. */
  predicate Quiet(eofs: seq<bool>) {
    (|eofs| > 0 ==> !eofs[0]) && (|eofs| > 1 ==> !eofs[1])
  }

  /** The server's reply to the authentication is "ok" with a block "ok". */
  predicate Accepts(bytes: string) {
    match ParseAll(bytes).reading
    case Response(status, blocks) => status == Ok && blocks != [] && CStr(blocks[0]) == "ok"
    case _ => false
  }

  /** Which replies are accepted: the word "ok" and behind it a block "ok", both as C strings. */
  lemma AcceptsExactly(word: string, bs: seq<string>, rest: string)
    requires Sized(word) && AllSized(bs)
    ensures Accepts(Message([word] + bs) + rest) <==> CStr(word) == "ok" && bs != [] && CStr(bs[0]) == "ok"
  {
    hide ParseAll, Message, CStr;
    MessageStatus(word, bs, rest);
  }

  lemma {:induction false} LandedShorter(lost: bool, eofs: seq<bool>, connects: seq<Option<string>>, bytes: string)
    ensures |Land(lost, eofs, connects, bytes).eofs| <= |eofs|
    decreases |eofs| + |connects|
  {
    if lost {
      if connects != [] && connects[0] == None {
        LandedShorter(true, eofs, connects[1..], "");
      } else if eofs != [] {
        var accepted := if connects == [] then "" else connects[0].value;
        LandedShorter(eofs[0], eofs[1..], if connects == [] then [] else connects[1..], accepted);
      }
    }
  }

  lemma LandedFewer(at: Landing)
    ensures var rest := Landed(at.eofs, at.connects, at.bytes).eofs;
      |rest| <= |at.eofs| && (Attempts(at.eofs, at.connects) > 0 ==> |rest| < |at.eofs|)
  {
    if at.eofs != [] {
      LandedShorter(at.eofs[0], at.eofs[1..], at.connects, at.bytes);
    }
  }

  /** What a check of the connection comes to: no connection, or one with the bytes still to come on it
      and what is left of the script. */
  datatype Fate = Lost | Up(state: Landing)

  /** ssdb_check_eof over the script: at most ten attempts and, if there were any, the authentication. */
  function Checked(auth: bool, at: Landing): (f: Fate)
    ensures f.Up? ==> |f.state.eofs| <= |at.eofs|
    decreases |at.eofs|, 0
  {
    var needed := Attempts(at.eofs, at.connects);
    if needed > 10 then Lost else
      LandedFewer(at);
      var landed := Landed(at.eofs, at.connects, at.bytes);
      if needed == 0 || !auth then Up(landed) else Authenticated(landed)
  }

  /** resend_auth over the script: a check before the command is written, and one before the reply is
      read, which must be accepted. */
  function Authenticated(at: Landing): (f: Fate)
    ensures f.Up? ==> |f.state.eofs| <= |at.eofs|
    decreases |at.eofs|, 1
  {
    match Checked(true, at)
    case Lost => Lost
    case Up(written) =>
      match Checked(true, written)
      case Lost => Lost
      case Up(read) =>
        if Accepts(read.bytes) then Up(read.(bytes := ParseAll(read.bytes).rest)) else Lost
  }

  /** Without authentication the connection is up exactly when at most ten attempts are needed. */
  lemma CheckedWithout(at: Landing)
    ensures Checked(false, at).Up? <==> Attempts(at.eofs, at.connects) <= 10
    ensures Checked(false, at).Up? ==> Checked(false, at).state == Landed(at.eofs, at.connects, at.bytes)
  {
  }

  /** With it, where an attempt is needed and the connection is not lost again meanwhile, exactly when
      at most ten are needed and the reply is accepted; what follows the reply is then still to come. */
  lemma CheckedQuiet(at: Landing)
    requires Attempts(at.eofs, at.connects) > 0 && Quiet(Landed(at.eofs, at.connects, at.bytes).eofs)
    ensures var bytes := Landed(at.eofs, at.connects, at.bytes).bytes;
      && (Checked(true, at).Up? <==> Attempts(at.eofs, at.connects) <= 10 && Accepts(bytes))
      && (Checked(true, at).Up? ==> Checked(true, at).state.bytes == ParseAll(bytes).rest)
  {
    hide ParseAll, Accepts;
    var landed := Landed(at.eofs, at.connects, at.bytes);
    CheckedAlive(landed);
    CheckedAlive(landed.(eofs := if landed.eofs == [] then [] else landed.eofs[1..]));
  }

  lemma CheckedAlive(at: Landing)
    requires at.eofs == [] || !at.eofs[0]
    ensures Checked(true, at) == Up(at.(eofs := if at.eofs == [] then [] else at.eofs[1..]))
  {
  }

  predicate EndsWith(s: string, t: string) { |t| <= |s| && s[|s| - |t|..] == t }

  function AuthMessage(auth: string): string { Message(["auth", CStr(auth)]) }

  /** The server takes the authentication apart into the command and the password, as a C string. */
  lemma AuthUnframes(auth: string)
    ensures Unframe(AuthMessage(auth)) == Frames(["auth", CStr(auth)])
  {
    UnframeMessage(["auth", CStr(auth)]);
  }

  /** SSDBSock. */
  class Sock {
    var stream: Stream?
    var status: SockStatus
    var auth: Option<string>
    const net: Network
    ghost var attempts: nat

    constructor (net: Network)
      ensures this.net == net && stream == null && status == DISCONNECTED && auth == None && attempts == 0
    {
      this.net := net;
      stream, status, auth, attempts := null, DISCONNECTED, None, 0;
    }

    ghost function Streams(): set<object>
      reads this
    {
      if stream == null then {} else {stream}
    }

    /** Nothing was written on a new stream before the authentication. */
    ghost predicate AuthFirst()
      reads this, stream
    {
      stream != null && (auth.Some? ==> AuthMessage(auth.value) <= stream.sent)
    }

    ghost function AttemptsNow(): nat
      reads this, net
    {
      Attempts(net.eofs, net.connects)
    }

    ghost function Now(): Landing
      requires stream != null
      reads this, net, stream
    {
      Landing(stream.pending, net.eofs, net.connects)
    }

    ghost function LandedNow(): Landing
      requires stream != null
      reads this, net, stream
    {
      Landed(net.eofs, net.connects, stream.pending)
    }

    /** What a check of the connection will come to. */
    ghost function CheckedNow(): Fate
      requires stream != null
      reads this, net, stream
    {
      Checked(auth.Some?, Now())
    }

    /** ssdb_connect_socket. */
    method ConnectSocket() returns (r: Result)
      modifies this`stream, this`status, this`attempts, net`connects
      ensures attempts == old(attempts) + 1
      ensures r == Success <==> stream != null
      ensures r != Died
      ensures stream != null ==> fresh(stream) && stream.sent == "" && status == CONNECTED
      ensures stream == null <==> old(net.connects) != [] && old(net.connects)[0] == None
      ensures net.connects == if old(net.connects) == [] then [] else old(net.connects)[1..]
      ensures stream != null ==> stream.pending == if old(net.connects) == [] then "" else old(net.connects)[0].value
    {
      if stream != null {
        status := DISCONNECTED;
        stream := null;
      }
      attempts := attempts + 1;
      stream := net.Connect();
      if stream == null {
        return Failure;
      }
      status := CONNECTED;
      return Success;
    }

    /** The loop of ssdb_check_eof: at most ten attempts. */
    method Reestablish() returns (alive: bool, count: nat)
      requires stream != null
      modifies this`stream, this`status, this`attempts, net
      ensures alive <==> stream != null
      ensures attempts == old(attempts) + count && count <= 10
      ensures var needed := old(AttemptsNow());
        (alive <==> needed <= 10) && count == (if needed <= 10 then needed else 10)
      ensures alive ==> Now() == old(LandedNow())
      ensures alive && count > 0 ==> status == CONNECTED
      ensures count == 0 ==> status == old(status)
      ensures |net.eofs| <= |old(net.eofs)| && (count > 0 ==> |net.eofs| < |old(net.eofs)|)
      ensures count == 0 ==> stream == old(stream) && alive
      ensures alive && count > 0 ==> fresh(stream) && stream.sent == ""
    {
      count := 0;
      var eof := net.Eof();
      ghost var needed := Needed(eof, net.eofs, net.connects);
      ghost var landed := Land(eof, net.eofs, net.connects, stream.pending);
      while eof
        invariant count <= 10 && attempts == old(attempts) + count
        invariant needed == count + Needed(eof, net.eofs, net.connects)
        invariant !eof ==> stream != null && landed == Landing(stream.pending, net.eofs, net.connects)
        invariant eof ==> landed == Land(true, net.eofs, net.connects, "")
        invariant if count == 0 then status == old(status) else !eof ==> status == CONNECTED
        invariant |net.eofs| <= |old(net.eofs)| && (eof || count > 0 ==> |net.eofs| < |old(net.eofs)|)
        invariant count == 0 ==> stream == old(stream)
        invariant count > 0 && stream != null ==> fresh(stream) && stream.sent == ""
        decreases 10 - count, eof
      {
        if count == 10 {
          if stream != null {
            stream := null;
            status := FAILED;
          }
          return false, count;
        }
        stream := null;
        var r := ConnectSocket();
        if stream != null {
          eof := net.Eof();
        }
        count := count + 1;
      }
      alive := true;
    }

    /** Unless it reports failure, the stream is the old one untouched, or a new one on which the
        authentication was written first. */
    twostate predicate Renewed()
      reads this, stream
    {
      && stream != null
      && (|| (stream == old(stream) && stream.sent == old(stream.sent) && stream.pending == old(stream.pending))
          || (fresh(stream) && AuthFirst()))
    }

    /** ssdb_check_eof. */
    method CheckEof() returns (r: Result)
      modifies this`stream, this`status, this`attempts, net, Streams()
      ensures r == Success ==> stream != null && Renewed()
      ensures old(stream) == null ==> r == Failure
      ensures old(stream) != null ==> (r == Success <==> old(CheckedNow()).Up?)
      ensures old(stream) != null && r == Success ==> Up(Now()) == old(CheckedNow())
      ensures r == Success && old(status) != DISCONNECTED ==> status != DISCONNECTED
      ensures |net.eofs| <= |old(net.eofs)|
      ensures attempts <= old(attempts) + 10 * (|old(net.eofs)| - |net.eofs|)
      decreases |net.eofs|, 0
    {
      if stream == null {
        return Failure;
      }
      var alive, count := Reestablish();
      if !alive {
        return Failure;
      }
      if count > 0 {
        if auth.Some? {
          var re := ResendAuth();
          if re != Success {
            return re;
          }
        }
      }
      return Success;
    }

    /** resend_auth. */
    method ResendAuth() returns (r: Result)
      requires stream != null && stream.sent == "" && auth.Some? && status != DISCONNECTED
      modifies this`stream, this`status, this`attempts, net, stream
      ensures r == Success ==> AuthFirst() && (stream == old(stream) || fresh(stream))
      ensures r == Success <==> Authenticated(old(Now())).Up?
      ensures r == Success ==> Up(Now()) == Authenticated(old(Now())) && status != DISCONNECTED
      ensures |net.eofs| <= |old(net.eofs)|
      ensures attempts <= old(attempts) + 10 * (|old(net.eofs)| - |net.eofs|)
      decreases |net.eofs|, 2
    {
      hide ParseAll, Message, CStr, Links.Data;
      var w := SockWrite(AuthMessage(auth.value));
      if w != Success {
        return w;
      }
      var rr, response := SockRead();
      if rr != Success {
        return rr;
      }
      if response.status != Ok {
        return Failure;
      }
      if response.block == null {
        return Died;
      }
      if CStr(response.block.data) != "ok" {
        return Failure;
      }
      return Success;
    }

    /** ssdb_sock_write. */
    method SockWrite(cmd: string) returns (r: Result)
      modifies this`stream, this`status, this`attempts, net, Streams()
      ensures r == Success ==> stream != null && EndsWith(stream.sent, cmd)
      ensures old(stream) == null || old(status) == DISCONNECTED ==> r == Failure
      ensures old(stream) != null && old(status) != DISCONNECTED ==> (r == Success <==> old(CheckedNow()).Up?)
      ensures old(stream) != null && r == Success ==> Up(Now()) == old(CheckedNow()) && status != DISCONNECTED
      ensures r == Success && stream == old(stream) ==> stream.sent == old(stream.sent) + cmd
      ensures r == Success && stream != old(stream) ==> fresh(stream) && AuthFirst()
      ensures |net.eofs| <= |old(net.eofs)|
      ensures attempts <= old(attempts) + 10 * (|old(net.eofs)| - |net.eofs|)
      decreases |net.eofs|, 1
    {
      if status == DISCONNECTED {
        return Failure;
      }
      var c := CheckEof();
      if c != Success {
        return c;
      }
      stream.Write(cmd);
      return Success;
    }

    /** ssdb_sock_read. */
    method SockRead() returns (r: Result, response: ResponseObj?)
      modifies this`stream, this`status, this`attempts, net, Streams()
      ensures r == Success ==> stream != null && response != null && fresh(response) && response.Valid()
      ensures old(stream) == null ==> r == Failure
      ensures old(stream) != null ==>
        (r == Success <==> old(CheckedNow()).Up? && ParseAll(old(CheckedNow()).state.bytes).reading.Response?)
      ensures old(stream) != null && r == Success ==>
        && net.eofs == old(CheckedNow()).state.eofs && net.connects == old(CheckedNow()).state.connects
        && ParseAll(old(CheckedNow()).state.bytes) == Parsed(Response(response.status, response.Contents()), stream.pending)
      ensures r == Success && old(status) != DISCONNECTED ==> status != DISCONNECTED
      ensures r == Success && stream == old(stream) ==>
        stream.sent == old(stream.sent) &&
        ParseAll(old(stream.pending)) == Parsed(Response(response.status, response.Contents()), stream.pending)
      ensures r == Success && stream != old(stream) ==> fresh(stream) && AuthFirst()
      ensures |net.eofs| <= |old(net.eofs)|
      ensures attempts <= old(attempts) + 10 * (|old(net.eofs)| - |net.eofs|)
      decreases |net.eofs|, 1
    {
      response := null;
      var c := CheckEof();
      if c != Success {
        return c, null;
      }
      var fatal;
      response, fatal := ReadResponse(stream);
      if fatal {
        return Died, null;
      }
      if response == null {
        return Failure, null;
      }
      return Success, response;
    }
  }
}
