/**
 * The decision part of `handle_connection` (src/main.rs): a zero-filled
 * 1024-byte buffer is filled by one read, parsed in full, the target is
 * resolved to a destination, and the destination's host is checked against
 * the allow set. A denied host gets the fixed 403 response and no upstream
 * connection; an allowed one is connected to and sent exactly the bytes read.
 * Every `unwrap` that can panic becomes a `Fail` outcome.
 */
module Admission {
  import opened Wrappers
  import opened Utf8
  import opened Handshake

  /** `vec![0; 1024]`: the size of the receive buffer. */
  const BufferSize: nat := 1024

  /** The text of the rejection response. */
  const ForbiddenText: string := "HTTP/1.1 403 Forbidden\r\n\r\n"

  /** The bytes written to a client whose host is not allowed. */
  const Forbidden: seq<byte> := [
    0x48, 0x54, 0x54, 0x50, 0x2F, 0x31, 0x2E, 0x31, 0x20, 0x34, 0x30, 0x33, 0x20,
    0x46, 0x6F, 0x72, 0x62, 0x69, 0x64, 0x64, 0x65, 0x6E, 0x0D, 0x0A, 0x0D, 0x0A]

  lemma ForbiddenIsAscii()
    ensures |ForbiddenText| == |Forbidden| == 26
    ensures forall i :: 0 <= i < |ForbiddenText| ==> ForbiddenText[i] as int < 0x80 && Forbidden[i] == ForbiddenText[i] as int
  {
  }

  /** The rejection bytes are `str::as_bytes` of the response text: its UTF-8 encoding. */
  lemma ForbiddenIsText()
    ensures Forbidden == Encode(ForbiddenText)
  {
    ForbiddenIsAscii();
    AsciiEncoding(ForbiddenText, Forbidden);
  }

  /** A TCP port, as the `u16` that `port_or_known_default()` returns. */
  type Port = p: int | 0 <= p < 0x1_0000

  /** Where the proxy would connect: the URL's host (as text) and its port. */
  datatype Destination = Destination(host: string, port: Port)

  /** What the one `socket.read` into the buffer gave: the bytes read, or an error. */
  datatype ReadResult = Received(chunk: seq<byte>) | ReadError

  /** Which `unwrap` panicked. */
  datatype Failure =
    | ReadFailed                  // socket.read(..).unwrap()
    | Malformed(error: ParseError) // parse_handshake's unwraps
    | Unresolvable                // Url::parse, host() or port_or_known_default() gave nothing
    | ConnectFailed               // TcpStream::connect(..).unwrap()

  /** How a connection's handshake ends. */
  datatype Outcome =
    | Reject(toClient: seq<byte>)                        // the 403 is written; no upstream connection
    | Forward(dest: Destination, toUpstream: seq<byte>)  // connected; these bytes replayed, then the relay
    | Fail(failure: Failure)                             // the task panicked; nothing is written anywhere

  /** The bytes sent upstream before the relay starts. */
  function UpstreamBytes(o: Outcome): seq<byte> {
    if o.Forward? then o.toUpstream else []
  }

  /** The bytes written to the client before the relay starts. */
  function ClientBytes(o: Outcome): seq<byte> {
    if o.Reject? then o.toClient else []
  }

  /** The receive buffer after a read of `chunk`: the bytes read, then the zeros it was filled with. */
  function ReceiveBuffer(chunk: seq<byte>): (buf: seq<byte>)
    requires |chunk| <= BufferSize
    ensures |buf| == BufferSize
  {
    chunk + Zeros(BufferSize - |chunk|)
  }

  /**
   * The decision taken once the handshake is parsed: `parsed` is what
   * `parse_handshake` gave for the buffer, `read` the bytes the read put in it.
   */
  function Decide(parsed: Result<Handshake, ParseError>, read: seq<byte>, allow: set<string>,
                  resolve: string -> Option<Destination>, reachable: Destination -> bool): (o: Outcome)
    ensures o.Reject? ==> o.toClient == Forbidden
    ensures o.Forward? ==>
      && parsed.Ok? && resolve(parsed.value.target) == Some(o.dest)
      && o.dest.host in allow && reachable(o.dest) && o.toUpstream == read
    ensures o.Fail? ==> parsed.Err? || resolve(parsed.value.target).None? || !reachable(resolve(parsed.value.target).value)
  {
    match parsed
    case Err(e) => Fail(Malformed(e))
    case Ok(h) =>
      match resolve(h.target)
      case None => Fail(Unresolvable)
      case Some(d) =>
        if d.host !in allow then Reject(Forbidden)
        else if !reachable(d) then Fail(ConnectFailed)
        else Forward(d, read)
  }

  /**
   * The decision `handle_connection` takes, on values. `resolve` stands for
   * `Url::parse` followed by `host()` and `port_or_known_default()`;
   * `reachable` for whether `TcpStream::connect` succeeds.
   */
  function Admit(received: ReadResult, allow: set<string>,
                 resolve: string -> Option<Destination>, reachable: Destination -> bool): (o: Outcome)
    requires received.Received? ==> |received.chunk| <= BufferSize
    ensures received.ReadError? ==> o == Fail(ReadFailed)
    ensures o.Reject? ==> received.Received? && o.toClient == Forbidden
    ensures o.Forward? ==> received.Received? && o.dest.host in allow && reachable(o.dest) && o.toUpstream == received.chunk
  {
    match received
    case ReadError => Fail(ReadFailed)
    case Received(chunk) =>
      var buf := ReceiveBuffer(chunk);
      assert buf[..|chunk|] == chunk;
      Decide(ParseHandshake(buf), buf[..|chunk|], allow, resolve, reachable)
  }

  /** `socket.read(&mut buf)`: copies the bytes read into the front of the buffer, leaves the rest. */
  method Receive(buf: array<byte>, chunk: seq<byte>) returns (n: nat)
    requires |chunk| <= buf.Length
    modifies buf
    ensures n == |chunk|
    ensures buf[..n] == chunk
    ensures buf[n..] == old(buf[n..])
  {
    n := 0;
    while n < |chunk|
      invariant n <= |chunk|
      invariant buf[..n] == chunk[..n]
      invariant forall i :: n <= i < buf.Length ==> buf[i] == old(buf[i])
    {
      buf[n] := chunk[n];
      n := n + 1;
    }
  }

  /** `handle_connection` up to the start of the relay. */
  method HandleConnection(received: ReadResult, allow: set<string>,
                          resolve: string -> Option<Destination>, reachable: Destination -> bool)
    returns (outcome: Outcome)
    requires received.Received? ==> |received.chunk| <= BufferSize
    ensures outcome == Admit(received, allow, resolve, reachable)
    ensures outcome.Reject? ==> outcome.toClient == Forbidden
    ensures outcome.Forward? ==> received.Received? && outcome.dest.host in allow && outcome.toUpstream == received.chunk
  {
    var buf := new byte[BufferSize](_ => 0);
    if received.ReadError? {
      return Fail(ReadFailed);
    }
    var n := Receive(buf, received.chunk);
    assert buf[..] == ReceiveBuffer(received.chunk) by {
      assert buf[..] == buf[..n] + buf[n..];
    }
    var parsed := ParseHandshake(buf[..]);
    if parsed.Err? {
      return Fail(Malformed(parsed.error));
    }
    var dest := resolve(parsed.value.target);
    if dest.None? {
      return Fail(Unresolvable);
    }
    if dest.value.host !in allow {
      return Reject(Forbidden);
    }
    if !reachable(dest.value) {
      return Fail(ConnectFailed);
    }
    outcome := Forward(dest.value, buf[..n]);
  }

  // ---------------------------------------------------------------------
  // What the decision guarantees.

  /**
   * No byte goes upstream unless the policy approved: a forwarded connection
   * had a read, a parsed handshake whose target resolved to the destination,
   * an allowed host and a successful connect, and what it replays is exactly
   * the bytes read, not the padding the parser also saw.
   */
  lemma ForwardOnlyWhenAllowed(received: ReadResult, allow: set<string>,
                               resolve: string -> Option<Destination>, reachable: Destination -> bool)
    requires received.Received? ==> |received.chunk| <= BufferSize
    requires Admit(received, allow, resolve, reachable).Forward?
    ensures var o := Admit(received, allow, resolve, reachable);
      && received.Received?
      && ParseHandshake(ReceiveBuffer(received.chunk)).Ok?
      && resolve(ParseHandshake(ReceiveBuffer(received.chunk)).value.target) == Some(o.dest)
      && o.dest.host in allow && reachable(o.dest)
      && UpstreamBytes(o) == received.chunk && |UpstreamBytes(o)| <= BufferSize
      && ClientBytes(o) == []
  {
    var chunk := received.chunk;
    var buf := ReceiveBuffer(chunk);
    assert buf[..|chunk|] == chunk;
    var h := ParseHandshake(buf).value;
    var d := resolve(h.target).value;
    var o := Admit(received, allow, resolve, reachable);
    assert o == Forward(d, buf[..|chunk|]);
    assert o.dest == d && resolve(h.target) == Some(d);
    assert UpstreamBytes(o) == chunk;
  }

  /**
   * Conversely, every approved request is forwarded: a read whose padded
   * buffer parses, with a target that resolves to an allowed destination that
   * can be reached, is replayed there exactly as read, whether or not the
   * line ends in whitespace.
   */
  lemma ForwardWhenApproved(chunk: seq<byte>, allow: set<string>,
                            resolve: string -> Option<Destination>, reachable: Destination -> bool,
                            h: Handshake, d: Destination)
    requires |chunk| <= BufferSize
    requires ParseHandshake(ReceiveBuffer(chunk)) == Ok(h)
    requires resolve(h.target) == Some(d) && d.host in allow && reachable(d)
    ensures Admit(Received(chunk), allow, resolve, reachable) == Forward(d, chunk)
  {
    assert ReceiveBuffer(chunk)[..|chunk|] == chunk;
  }

  /**
   * The 403 is sent exactly when a well-formed handshake names a host outside
   * the allow set; it is then the only thing written and nothing goes upstream.
   */
  lemma RejectExactlyWhenDenied(received: ReadResult, allow: set<string>,
                                resolve: string -> Option<Destination>, reachable: Destination -> bool)
    requires received.Received? ==> |received.chunk| <= BufferSize
    ensures var o := Admit(received, allow, resolve, reachable);
      o.Reject? <==>
        && received.Received?
        && ParseHandshake(ReceiveBuffer(received.chunk)).Ok?
        && var d := resolve(ParseHandshake(ReceiveBuffer(received.chunk)).value.target);
           d.Some? && d.value.host !in allow
    ensures var o := Admit(received, allow, resolve, reachable);
      o.Reject? ==> ClientBytes(o) == Forbidden && UpstreamBytes(o) == []
  {
  }

  /** Bytes that are not well-formed UTF-8 end the task before any URL or host is looked at. */
  lemma InvalidUtf8Fails(chunk: seq<byte>, allow: set<string>,
                         resolve: string -> Option<Destination>, reachable: Destination -> bool)
    requires |chunk| <= BufferSize
    requires DecodeUtf8(chunk).None?
    ensures Admit(Received(chunk), allow, resolve, reachable) == Fail(Malformed(InvalidUtf8))
  {
    var k := BufferSize - |chunk|;
    var buf := ReceiveBuffer(chunk);
    assert buf == chunk + Zeros(k);
    DecodePadded(chunk, k);
    assert DecodeUtf8(buf).None?;
    assert ParseHandshake(buf) == Err(InvalidUtf8);
  }

  /**
   * With fewer than two whitespace characters in what was read, a token is
   * missing and the task ends; the padding cannot supply one.
   */
  lemma TooFewTokensFails(chunk: seq<byte>, allow: set<string>,
                          resolve: string -> Option<Destination>, reachable: Destination -> bool)
    requires |chunk| <= BufferSize
    requires DecodeUtf8(chunk).Some? && |Separators(DecodeUtf8(chunk).value)| < 2
    ensures Admit(Received(chunk), allow, resolve, reachable) ==
      Fail(Malformed(if |Separators(DecodeUtf8(chunk).value)| == 0 then MissingTarget else MissingProtocol))
  {
    var k := BufferSize - |chunk|;
    var text := DecodeUtf8(chunk).value;
    ParsePaddedBuffer(chunk, k);
    PlainPadded([], k);
    assert [] + Nuls(k) == Nuls(k);
    SeparatorsAppendPlain(text, Nuls(k));
    PiecesCount(text + Nuls(k));
    ParseLineOutcome(text + Nuls(k));
  }

  /** A read of nothing leaves a buffer of zeros: one piece, so the target is missing. */
  lemma EmptyReadFails(allow: set<string>, resolve: string -> Option<Destination>, reachable: Destination -> bool)
    ensures Admit(Received([]), allow, resolve, reachable) == Fail(Malformed(MissingTarget))
  {
    assert DecodeUtf8([]) == Some([]);
    TooFewTokensFails([], allow, resolve, reachable);
  }

  /**
   * A request line ended by whitespace (CRLF, say) and read whole: the outcome
   * depends only on how its target resolves, on the allow set and on the connect.
   */
  lemma AdmitRequest(line: string, m: string, w1: char, t: string, w2: char, p: string, w3: char, rest: string,
                     allow: set<string>, resolve: string -> Option<Destination>, reachable: Destination -> bool)
    requires NoWhitespace(m) && NoWhitespace(t) && NoWhitespace(p)
    requires IsWhitespace(w1) && IsWhitespace(w2) && IsWhitespace(w3)
    requires line == m + [w1] + t + [w2] + p + [w3] + rest
    requires |Encode(line)| <= BufferSize
    ensures Admit(Received(Encode(line)), allow, resolve, reachable) ==
      match resolve(t)
      case None => Fail(Unresolvable)
      case Some(d) =>
        if d.host !in allow then Reject(Forbidden)
        else if !reachable(d) then Fail(ConnectFailed)
        else Forward(d, Encode(line))
  {
    var chunk := Encode(line);
    var k := BufferSize - |chunk|;
    ParseTerminatedRequest(line, m, w1, t, w2, p, w3, rest, k);
    var buf := ReceiveBuffer(chunk);
    assert buf == chunk + Zeros(k);
    assert buf[..|chunk|] == chunk;
    assert ParseHandshake(buf) == Ok(Handshake(m, t, p));
  }

  /** An HTTP/1.1 request line `GET <target> HTTP/1.1` ended by CRLF, as a forward-proxy client sends it. */
  lemma AdmitGetRequest(line: string, target: string, rest: string, allow: set<string>,
                        resolve: string -> Option<Destination>, reachable: Destination -> bool)
    requires NoWhitespace(target)
    requires line == "GET" + " " + target + " " + "HTTP/1.1" + "\r\n" + rest
    requires |Encode(line)| <= BufferSize
    ensures Admit(Received(Encode(line)), allow, resolve, reachable) ==
      match resolve(target)
      case None => Fail(Unresolvable)
      case Some(d) =>
        if d.host !in allow then Reject(Forbidden)
        else if !reachable(d) then Fail(ConnectFailed)
        else Forward(d, Encode(line))
  {
    var m, p := "GET", "HTTP/1.1";
    assert NoWhitespace(m) && NoWhitespace(p);
    assert "\r\n" + rest == ['\r'] + ("\n" + rest);
    assert line == m + [' '] + target + [' '] + p + ['\r'] + ("\n" + rest);
    AdmitRequest(line, m, ' ', target, ' ', p, '\r', "\n" + rest, allow, resolve, reachable);
  }

  /** A request for an allowed host is connected to and replayed in full. */
  lemma AllowedRequestIsForwarded(line: string, rest: string,
                                  resolve: string -> Option<Destination>, reachable: Destination -> bool)
    requires line == "GET" + " " + "http://baidu.com/" + " " + "HTTP/1.1" + "\r\n" + rest
    requires |Encode(line)| <= BufferSize
    requires resolve("http://baidu.com/") == Some(Destination("baidu.com", 80))
    requires reachable(Destination("baidu.com", 80))
    ensures Admit(Received(Encode(line)), {"baidu.com"}, resolve, reachable) ==
      Forward(Destination("baidu.com", 80), Encode(line))
  {
    assert NoWhitespace("http://baidu.com/");
    AdmitGetRequest(line, "http://baidu.com/", rest, {"baidu.com"}, resolve, reachable);
  }

  /** The same request for a host outside the allow set gets the 403 and nothing else. */
  lemma DeniedRequestIsRejected(line: string, rest: string,
                                resolve: string -> Option<Destination>, reachable: Destination -> bool)
    requires line == "GET" + " " + "http://example.com/" + " " + "HTTP/1.1" + "\r\n" + rest
    requires |Encode(line)| <= BufferSize
    requires resolve("http://example.com/") == Some(Destination("example.com", 80))
    ensures Admit(Received(Encode(line)), {"baidu.com"}, resolve, reachable) == Reject(Forbidden)
  {
    assert NoWhitespace("http://example.com/");
    AdmitGetRequest(line, "http://example.com/", rest, {"baidu.com"}, resolve, reachable);
  }
}
