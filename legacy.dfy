/** The earlier request writer and transport of src/index.ts. It differs from
    the current writer in four ways: every chunked write is followed by the
    last chunk, there is no closed state (so no write ever throws "Socket is
    closed"), writes are queued on the socket's own `connecting` flag, and
    `sendMessage` ends the request itself. */
module Legacy {
  import opened Maybe
  import opened Octets
  import opened Radix
  import opened JsObject
  import opened Chunked
  import opened Headers
  import opened Events
  import HttpRequest
  import SocketTransport

  datatype Conn = Conn(
    lines: seq<string>,
    pendingWrites: seq<Chunk>,
    sentInit: bool,
    sentContentLength: bool,
    connecting: bool,               // `netSocket.connecting`
    calls: seq<SocketCall>,
    events: seq<HttpEvent>)

  function Stream(s: Conn): seq<Chunk> {
    Written(s.calls) + s.pendingWrites
  }

  /** After the header loop and `netSocket.connect(...)`. */
  function InitConn(verb: string, path: string, host: string, headers: Dict<string>): Conn {
    WriteHeaders(
      Conn([HttpRequest.RequestLine(verb, path), HttpRequest.HostLine(host)], [], false, false, true, [], []),
      headers)
  }

  const TransferEncoding: string := "transfer-encoding"
  /** What follows the data of every chunked write: CRLF, then the last chunk. */
  const Terminator: string := "\r\n0\r\n\r\n"

  // ---------------------------------------------------------------- the step functions

  /** `writeHeader(key, value)`. */
  function WriteHeaderStep(s: Conn, key: string, value: string): (Conn, Outcome) {
    if s.sentInit then (s, Failed(HeaderAfterInit))
    else
      (s.(lines := s.lines + [HttpRequest.HeaderLine(key, value)],
          sentContentLength := s.sentContentLength || IsContentLength(key)), Done)
  }

  function WriteHeaders(s: Conn, hs: seq<(string, string)>): Conn {
    if hs == [] then s
    else WriteHeaderStep(WriteHeaders(s, hs[..|hs| - 1]), hs[|hs| - 1].0, hs[|hs| - 1].1).0
  }

  /** `writeToSocket` for a series of chunks: queued while the socket is
      connecting, written otherwise; it never throws. */
  function Commit(s: Conn, cs: seq<Chunk>): Conn {
    if s.connecting then s.(pendingWrites := s.pendingWrites + cs)
    else s.(calls := s.calls + Writes(cs))
  }

  /** What `write` puts after the head. */
  function Body(sentContentLength: bool, content: Chunk): seq<Chunk> {
    if sentContentLength then [content]
    else [Text(SizeLine(Length(content))), content, Text(Terminator)]
  }

  /** `write(content)`. */
  function WriteStep(s: Conn, content: Chunk): (Conn, Outcome) {
    var r := if s.sentContentLength then (s, Done)
             else WriteHeaderStep(s, TransferEncoding, ChunkedCoding);
    if r.1.Failed? then r
    else
      var t := r.0;
      var u := if t.sentInit then t
               else Commit(t, [Text(HttpRequest.InitData(t.lines))]).(sentInit := true);
      (Commit(u, Body(u.sentContentLength, content)), Done)
  }

  const ChunkedCoding: string := "chunked"

  /** `onConnect()`: the socket is no longer connecting; the queue is flushed in order. */
  function ConnectStep(s: Conn): Conn {
    s.(connecting := false, calls := s.calls + Writes(s.pendingWrites), pendingWrites := [])
  }

  /** `end()`: straight to the socket, whatever its state. */
  function EndStep(s: Conn): Conn {
    s.(calls := s.calls + [End])
  }

  function DestroyStep(s: Conn): Conn {
    s.(calls := s.calls + [Destroy])
  }

  /** `onMessageComplete`: end-http only; the socket is left alone. */
  function MessageCompleteStep(s: Conn): Conn {
    s.(events := s.events + [EndHttp])
  }

  /** A socket 'error' reaches only the subscribers. Node destroys the
      socket before it emits 'error', which clears `netSocket.connecting`;
      the queue is left as it was and no 'connect' will flush it. */
  function ErrorStep(s: Conn, err: string): Conn {
    s.(connecting := false, events := s.events + [SocketError(err)])
  }

  function HeadersStep(s: Conn, status: int, raw: seq<string>): (Conn, Outcome) {
    match HeaderPairs(raw)
    case None => (s, Failed(MissingHeaderValue))
    case Some(h) => (s.(events := s.events + [Headers(status, h)]), Done)
  }

  function BodyStep(s: Conn, chunk: seq<byte>, offset: nat, length: nat): Conn {
    s.(events := s.events + [Data(Subarray(chunk, offset, length))])
  }

  /** Nothing is left queued once the socket has connected. */
  predicate Flushed(s: Conn) {
    !s.connecting ==> s.pendingWrites == []
  }

  // ---------------------------------------------------------------- properties of the writer

  lemma CommitStream(s: Conn, cs: seq<Chunk>)
    requires Flushed(s)
    ensures Stream(Commit(s, cs)) == Stream(s) + cs
    ensures Flushed(Commit(s, cs))
  {
    if !s.connecting {
      WrittenAppend(s.calls, Writes(cs));
      WrittenWrites(cs);
    }
  }

  lemma CommitAppend(s: Conn, a: seq<Chunk>, b: seq<Chunk>)
    ensures Commit(Commit(s, a), b) == Commit(s, a + b)
  {
    assert Writes(a + b) == Writes(a) + Writes(b);
  }

  /** A new legacy request has emitted nothing and called nothing on its socket. */
  lemma InitEvents(verb: string, path: string, host: string, headers: Dict<string>)
    ensures InitConn(verb, path, host, headers).events == []
    ensures InitConn(verb, path, host, headers).calls == []
  {
    WriteHeadersAppend(
      Conn([HttpRequest.RequestLine(verb, path), HttpRequest.HostLine(host)], [], false, false, true, [], []),
      headers);
  }

  /** The head of a legacy request: the request line, the Host line, then
      each option header in order; content-length mode exactly when one of
      them is a content-length key. */
  lemma {:induction false} WriteHeadersAppend(s: Conn, hs: seq<(string, string)>)
    requires !s.sentInit
    ensures WriteHeaders(s, hs) ==
      s.(lines := s.lines + HttpRequest.HeaderLines(hs),
         sentContentLength := s.sentContentLength || HttpRequest.HasContentLength(hs))
  {
    if hs != [] {
      var n := |hs| - 1;
      WriteHeadersAppend(s, hs[..n]);
      HttpRequest.HeadersSnoc(hs);
    }
  }

  /** The first write sends the head and then its body; a chunked body is
      the size line, the content and the terminator. No write throws for
      the socket's sake. */
  lemma FirstWrite(s: Conn, content: Chunk)
    requires Flushed(s) && !s.sentInit
    ensures var (t, o) := WriteStep(s, content);
      && o == Done && t.sentInit && t.sentContentLength == s.sentContentLength
      && t.lines == s.lines + (if s.sentContentLength then [] else [HttpRequest.HeaderLine(TransferEncoding, ChunkedCoding)])
      && Stream(t) == Stream(s) + [Text(HttpRequest.InitData(t.lines))] + Body(s.sentContentLength, content)
      && t.connecting == s.connecting && t.events == s.events && Flushed(t)
      && (s.connecting ==> t.calls == s.calls)
  {
    assert !IsContentLength(TransferEncoding) by { ContentLengthKeys(); }
    var t := if s.sentContentLength then s else WriteHeaderStep(s, TransferEncoding, ChunkedCoding).0;
    var head := Text(HttpRequest.InitData(t.lines));
    CommitStream(t, [head]);
    var u := Commit(t, [head]).(sentInit := true);
    CommitStream(u, Body(u.sentContentLength, content));
  }

  /** Later writes: raw content in content-length mode; in chunked mode the
      same "Cannot write header after init" as the current writer. */
  lemma LaterWrite(s: Conn, content: Chunk)
    requires Flushed(s) && s.sentInit
    ensures !s.sentContentLength ==> WriteStep(s, content) == (s, Failed(HeaderAfterInit))
    ensures s.sentContentLength ==>
      var (t, o) := WriteStep(s, content);
      o == Done && Stream(t) == Stream(s) + [content] && Flushed(t)
  {
    if s.sentContentLength {
      CommitStream(s, [content]);
    }
  }

  /** A legacy write throws exactly when it is a chunked write after the
      head was sent, and never for the socket's sake; a write that throws
      changes nothing. */
  lemma WriteFailsOnlyAfterInit(s: Conn, content: Chunk)
    ensures WriteStep(s, content).1.Failed? <==> s.sentInit && !s.sentContentLength
    ensures WriteStep(s, content).1 != Failed(SocketClosed)
    ensures WriteStep(s, content).1.Failed? ==> WriteStep(s, content).0 == s
  {
  }

  /** As in the current writer, only the first chunked write succeeds. */
  lemma SecondChunkedWriteFails(s: Conn, first: Chunk, second: Chunk)
    requires Flushed(s) && !s.sentInit && !s.sentContentLength
    ensures WriteStep(s, first).1 == Done
    ensures var t := WriteStep(s, first).0;
      WriteStep(t, second) == (t, Failed(HeaderAfterInit))
  {
    FirstWrite(s, first);
    LaterWrite(WriteStep(s, first).0, second);
  }

  /** The one chunked write a legacy request can make is a complete chunked
      body: its octets decode to the content. */
  lemma ChunkedWriteIsWholeBody(m: seq<byte>)
    requires m != []
    ensures DecodeBody(Concat(Body(false, Bytes(m)))) == Some([m])
  {
    var b := Body(false, Bytes(m));
    Concat3(b[0], b[1], b[2]);
    assert Utf8(Terminator) == CrLfBytes + LastChunkBytes by {
      assert IsAscii(Terminator);
      AsciiOctets(Terminator);
    }
    FrameOctets(m);
    assert Concat(b) == EncodeChunk(m) + LastChunkBytes;
    assert EncodeBody([m]) == EncodeChunk(m) + EncodeBody([]);
    DecodeEncodeBody([m]);
  }

  /** Connecting flushes the queue in order and leaves it empty. */
  lemma ConnectFlushes(s: Conn)
    ensures var t := ConnectStep(s);
      Stream(t) == Stream(s) && t.pendingWrites == [] && !t.connecting && Flushed(t)
      && Written(t.calls) == Written(s.calls) + s.pendingWrites
  {
    WrittenAppend(s.calls, Writes(s.pendingWrites));
    WrittenWrites(s.pendingWrites);
  }

  // ---------------------------------------------------------------- the object

  /** The closure of the legacy `makeHttpRequest`. */
  class Request {
    var lines: seq<string>
    var pendingWrites: seq<Chunk>
    var sentInit: bool
    var sentContentLength: bool
    var connecting: bool
    var calls: seq<SocketCall>
    var events: seq<HttpEvent>
    const endpoint: Endpoint

    function Snap(): Conn
      reads this
    {
      Conn(lines, pendingWrites, sentInit, sentContentLength, connecting, calls, events)
    }

    constructor (verb: string, path: string, host: string, port: Option<nat>, secure: bool,
                 headers: Dict<string>)
      ensures Snap() == InitConn(verb, path, host, headers)
      ensures endpoint == Endpoint(host, ConnectPort(secure, port), secure)
    {
      endpoint := Endpoint(host, ConnectPort(secure, port), secure);
      lines := [HttpRequest.RequestLine(verb, path), HttpRequest.HostLine(host)];
      pendingWrites := [];
      sentInit := false;
      sentContentLength := false;
      connecting := false;
      calls := [];
      events := [];
      new;
      ghost var s0 := Snap().(connecting := true);
      for i := 0 to |headers|
        invariant Snap().(connecting := true) == WriteHeaders(s0, headers[..i])
        invariant !connecting
      {
        assert headers[..i + 1][..i] == headers[..i];
        var o := WriteHeader(headers[i].0, headers[i].1);
      }
      assert headers[..|headers|] == headers;
      connecting := true;
    }

    method WriteHeader(key: string, value: string) returns (o: Outcome)
      modifies this
      ensures (Snap(), o) == WriteHeaderStep(old(Snap()), key, value)
    {
      if sentInit {
        return Failed(HeaderAfterInit);
      }
      if IsContentLength(key) {
        sentContentLength := true;
      }
      lines := lines + [HttpRequest.HeaderLine(key, value)];
      return Done;
    }

    method WriteToSocket(buff: Chunk)
      modifies this
      ensures Snap() == Commit(old(Snap()), [buff])
    {
      if connecting {
        pendingWrites := pendingWrites + [buff];
      } else {
        calls := calls + [SocketCall.Write(buff)];
      }
    }

    method Write(content: Chunk) returns (o: Outcome)
      modifies this
      ensures (Snap(), o) == WriteStep(old(Snap()), content)
    {
      o := Done;
      if !sentContentLength {
        o := WriteHeader(TransferEncoding, ChunkedCoding);
        if o.Failed? {
          return;
        }
      }
      if !sentInit {
        WriteToSocket(Text(HttpRequest.InitData(lines)));
        sentInit := true;
      }
      WriteBody(content);
    }

    /** The part of `write` after the head: the content, framed as one
        chunk plus the terminator unless a content-length header was sent. */
    method WriteBody(content: Chunk)
      modifies this
      ensures Snap() == Commit(old(Snap()), Body(old(sentContentLength), content))
    {
      if sentContentLength {
        WriteToSocket(content);
      } else {
        ghost var s := Snap();
        var size := Text(SizeLine(Length(content)));
        WriteToSocket(size);
        WriteToSocket(content);
        WriteToSocket(Text(Terminator));
        CommitAppend(s, [size], [content]);
        CommitAppend(s, [size, content], [Text(Terminator)]);
      }
    }

    method End()
      modifies this
      ensures Snap() == EndStep(old(Snap()))
    {
      calls := calls + [SocketCall.End];
    }

    method Destroy()
      modifies this
      ensures Snap() == DestroyStep(old(Snap()))
    {
      calls := calls + [SocketCall.Destroy];
    }

    /** The connect callback; the socket has stopped connecting before it runs. */
    method OnConnect()
      modifies this
      ensures Snap() == ConnectStep(old(Snap()))
    {
      connecting := false;
      for i := 0 to |pendingWrites|
        invariant Snap() == old(Snap()).(connecting := false, calls := calls)
        invariant calls == old(calls) + Writes(pendingWrites[..i])
      {
        assert Writes(pendingWrites[..i + 1]) == Writes(pendingWrites[..i]) + [SocketCall.Write(pendingWrites[i])];
        calls := calls + [SocketCall.Write(pendingWrites[i])];
      }
      assert pendingWrites[..|pendingWrites|] == pendingWrites;
      pendingWrites := [];
    }

    method OnMessageComplete()
      modifies this
      ensures Snap() == MessageCompleteStep(old(Snap()))
    {
      events := events + [EndHttp];
    }

    /** The socket's 'error' event, after Node has cleared `connecting`. */
    method OnSocketError(err: string)
      modifies this
      ensures Snap() == ErrorStep(old(Snap()), err)
    {
      connecting := false;
      events := events + [SocketError(err)];
    }

    method OnHeadersComplete(status: int, raw: seq<string>) returns (o: Outcome)
      modifies this
      ensures (Snap(), o) == HeadersStep(old(Snap()), status, raw)
    {
      var headers := ResponseHeaders(raw);
      if headers.None? {
        return Failed(MissingHeaderValue);
      }
      events := events + [Headers(status, headers.value)];
      return Done;
    }

    method OnBody(chunk: seq<byte>, offset: nat, length: nat)
      modifies this
      ensures Snap() == BodyStep(old(Snap()), chunk, offset, length)
    {
      var slice := Subarray(chunk, offset, length);
      events := events + [Data(slice)];
    }
  }

  // ---------------------------------------------------------------- the legacy transport

  /** `sendMessage(msgBytes)`: the Content-Length header for a unary call,
      the write, then `end()`. */
  function SendStep(s: Conn, unary: bool, msg: seq<byte>): (Conn, Outcome) {
    var r := if unary then WriteHeaderStep(s, SocketTransport.ContentLength, ToRadix(|msg|, 10)) else (s, Done);
    if r.1.Failed? then r
    else
      var w := WriteStep(r.0, Bytes(msg));
      if w.1.Failed? then w else (EndStep(w.0), Done)
  }

  /** The transport returned by the legacy `makeTransport(options)`. */
  class Transport {
    const url: SocketTransport.Url
    const kind: SocketTransport.MethodKind
    var request: Request?

    constructor (url: SocketTransport.Url, kind: SocketTransport.MethodKind)
      ensures this.url == url && this.kind == kind && request == null
    {
      this.url := url;
      this.kind := kind;
      request := null;
    }

    /** The RPC callbacks called so far, in order. */
    function Received(): seq<SocketTransport.RpcEvent>
      reads this, request
    {
      if request == null then [] else SocketTransport.Forward(request.events)
    }

    method Start(metadata: Dict<seq<string>>)
      modifies this
      ensures fresh(request)
      ensures request.Snap() == InitConn(SocketTransport.Post, url.path, url.hostname, SocketTransport.Flatten(metadata))
      ensures request.endpoint == Endpoint(url.hostname, ConnectPort(SocketTransport.IsSecure(url), url.port), SocketTransport.IsSecure(url))
      ensures Received() == []
    {
      var headers := SocketTransport.FlattenMetadata(metadata);
      request := new Request(SocketTransport.Post, url.path, url.hostname, url.port, SocketTransport.IsSecure(url), headers);
      InitEvents(SocketTransport.Post, url.path, url.hostname, headers);
    }

    method SendMessage(msg: seq<byte>) returns (o: Outcome)
      modifies request
      ensures request == null ==> o == Failed(NotStarted)
      ensures request != null ==> (request.Snap(), o) == SendStep(old(request.Snap()), SocketTransport.IsUnary(kind), msg)
      ensures Received() == old(Received())
    {
      if request == null {
        return Failed(NotStarted);
      }
      o := Done;
      if SocketTransport.IsUnary(kind) {
        o := request.WriteHeader(SocketTransport.ContentLength, ToRadix(|msg|, 10));
        if o.Failed? {
          return;
        }
      }
      o := request.Write(Bytes(msg));
      if o.Failed? {
        return;
      }
      request.End();
    }

    /** `finishSend()` does nothing: the legacy `sendMessage` has already
        ended the request. */
    method FinishSend()
      ensures request == old(request) && Received() == old(Received())
    {
    }

    /** `request?.destroy()`. */
    method Cancel()
      modifies request
      ensures request != null ==> request.Snap() == DestroyStep(old(request.Snap()))
      ensures Received() == old(Received())
    {
      if request != null {
        request.Destroy();
      }
    }
  }

  // ---------------------------------------------------------------- properties of the legacy transport

  /** A unary call made before the socket connects ends the socket first:
      `end()` reaches the socket at once while the head and the payload wait
      in the queue, so on connect they are written after the end. */
  lemma UnaryEndsBeforeWrites(s: Conn, msg: seq<byte>)
    requires Flushed(s) && !s.sentInit && s.connecting && s.calls == [] && s.pendingWrites == []
    ensures SendStep(s, true, msg).1 == Done
    ensures var t := SendStep(s, true, msg).0;
      && t.calls == [End]
      && ConnectStep(t).calls == [End] + Writes([Text(HttpRequest.InitData(t.lines)), Bytes(msg)])
  {
    assert IsContentLength(SocketTransport.ContentLength) by { ContentLengthKeys(); }
    var s1 := WriteHeaderStep(s, SocketTransport.ContentLength, ToRadix(|msg|, 10)).0;
    FirstWrite(s1, Bytes(msg));
    var w := WriteStep(s1, Bytes(msg)).0;
    assert Written(w.calls) == [];
    assert Stream(w) == [] + [Text(HttpRequest.InitData(w.lines))] + [Bytes(msg)];
    assert w.pendingWrites == Stream(w);
  }

  /** A socket error closes the RPC once, with the error: the legacy writer
      has no listener of its own that would emit end-http first. The socket
      is left alone and no longer counts as connecting. */
  lemma ErrorEndsOnce(s: Conn, err: string)
    ensures SocketTransport.Forward(ErrorStep(s, err).events) == SocketTransport.Forward(s.events) + [SocketTransport.OnEnd(Some(err))]
    ensures ErrorStep(s, err).calls == s.calls && ErrorStep(s, err).pendingWrites == s.pendingWrites
    ensures !ErrorStep(s, err).connecting
  {
    assert ErrorStep(s, err).events == s.events + [SocketError(err)];
  }

  /** After a failed connect the queue stays where it is, and a later
      `writeToSocket` goes straight to `netSocket.write`: the writer tests
      the socket's own flag, which the error has cleared. */
  lemma WriteAfterFailedConnect(s: Conn, err: string, cs: seq<Chunk>)
    requires s.connecting
    ensures var t := Commit(ErrorStep(s, err), cs);
      && t.calls == s.calls + Writes(cs)
      && t.pendingWrites == s.pendingWrites
      && Stream(t) == Written(s.calls) + cs + s.pendingWrites
  {
    WrittenAppend(s.calls, Writes(cs));
    WrittenWrites(cs);
  }

  /** A response ending normally closes the RPC once and leaves the socket alone. */
  lemma CompleteEndsOnce(s: Conn)
    ensures SocketTransport.Forward(MessageCompleteStep(s).events) == SocketTransport.Forward(s.events) + [SocketTransport.OnEnd(None)]
    ensures MessageCompleteStep(s).calls == s.calls
  {
    assert MessageCompleteStep(s).events == s.events + [EndHttp];
  }
}
