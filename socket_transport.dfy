/** The gRPC-web transport of src/make-socket-based-transport.ts: it opens
    one request on `start`, frames messages on `sendMessage`, and forwards
    the request's events to the RPC's callbacks. */
module SocketTransport {
  import opened Maybe
  import opened Octets
  import opened Radix
  import opened JsObject
  import opened Chunked
  import opened Headers
  import opened Events
  import opened HttpRequest

  /** The fields of `URL.parse(options.url)` the transport reads; `port` is
      the URL's port text read as a number, absent when the URL has none. */
  datatype Url = Url(protocol: string, hostname: string, port: Option<nat>, path: string)

  /** The stream flags of `options.methodDefinition`. */
  datatype MethodKind = MethodKind(requestStream: bool, responseStream: bool)

  /** `parsedUrl.protocol === 'https:'`. */
  function IsSecure(url: Url): bool {
    url.protocol == "https:"
  }

  /** Neither side streams: the message is sent with a Content-Length. */
  function IsUnary(kind: MethodKind): bool {
    !kind.requestStream && !kind.responseStream
  }

  const ContentLength: string := "Content-Length"
  const Post: string := "POST"
  const ValueSeparator: string := ", "

  // ---------------------------------------------------------------- start

  /** The header object `start` builds: one entry per metadata key, its
      values joined by ", ". */
  function Flatten(md: Dict<seq<string>>): (r: Dict<string>)
    ensures Keys(r) == Keys(md)
  {
    var r := seq(|md|, i requires 0 <= i < |md| => (md[i].0, Join(md[i].1, ValueSeparator)));
    assert forall i :: 0 <= i < |md| ==> r[i].0 == md[i].0;
    r
  }

  /** A metadata key's header carries its values joined by ", ", and there
      is no header for a key the metadata lacks. */
  lemma FlattenGet(md: Dict<seq<string>>, key: string)
    ensures Get(Flatten(md), key) ==
      if Get(md, key).Some? then Some(Join(Get(md, key).value, ValueSeparator)) else None
  {
    var r := Flatten(md);
    GetSpec(md, key);
    GetSpec(r, key);
    if Get(md, key).Some? {
      var i :| 0 <= i < |md| && md[i] == (key, Get(md, key).value);
      GetAt(r, i);
    }
  }

  /** The `metadata.forEach` loop of `start`. */
  method FlattenMetadata(md: Dict<seq<string>>) returns (headers: Dict<string>)
    ensures headers == Flatten(md)
  {
    headers := [];
    for i := 0 to |md|
      invariant DistinctKeys(md[..i])
      invariant headers == Flatten(md[..i])
    {
      var (key, values) := md[i];
      assert Get(headers, key).None? by {
        GetSpec(headers, key);
        assert forall j :: 0 <= j < i ==> headers[j].0 == md[j].0;
      }
      headers := Set(headers, key, Join(values, ValueSeparator));
      assert md[..i + 1] == md[..i] + [md[i]];
    }
    assert md[..|md|] == md;
  }

  // ---------------------------------------------------------------- the steps on the request

  /** `sendMessage(msgBytes)` on a started transport. */
  function SendStep(s: Conn, unary: bool, msg: seq<byte>): (Conn, Outcome) {
    if unary then
      var r := WriteHeaderStep(s, ContentLength, ToRadix(|msg|, 10));
      if r.1.Failed? then r else WriteStep(r.0, Bytes(msg))
    else WriteStep(s, Bytes(msg))
  }

  /** `finishSend()` on a started transport: `finishWrite`, then `end`. */
  function FinishSendStep(s: Conn): (Conn, Outcome) {
    var r := FinishWriteStep(s);
    if r.1.Failed? then r else (EndStep(r.0), Done)
  }

  // ---------------------------------------------------------------- what the RPC sees

  /** One call of the RPC's callbacks. */
  datatype RpcEvent =
    | OnHeaders(headers: Dict<HeaderValue>, status: int)
    | OnChunk(chunk: seq<byte>)
    | OnEnd(err: Option<string>)

  /** The subscriber `start` registers for each event of the request. */
  function ForwardEvent(e: HttpEvent): RpcEvent {
    match e
    case Headers(status, h) => OnHeaders(FilterDefined(Lifted(h)), status)
    case Data(body) => OnChunk(body)
    case EndHttp => OnEnd(None)
    case SocketError(err) => OnEnd(Some(err))
  }

  /** What the RPC sees of a series of request events: one callback each. */
  function Forward(es: seq<HttpEvent>): (r: seq<RpcEvent>)
    ensures |r| == |es|
  {
    seq(|es|, i requires 0 <= i < |es| => ForwardEvent(es[i]))
  }

  /** Forwarding keeps order: the callbacks for later events follow those
      for earlier ones. */
  lemma ForwardAppend(a: seq<HttpEvent>, b: seq<HttpEvent>)
    ensures Forward(a + b) == Forward(a) + Forward(b)
  {
  }

  // ---------------------------------------------------------------- the transport

  class Transport {
    const url: Url
    const kind: MethodKind
    var request: Request?

    /** `makeSocketBasedTransport(options, config)`: no request yet. */
    constructor (url: Url, kind: MethodKind)
      ensures this.url == url && this.kind == kind && request == null
      ensures Valid()
    {
      this.url := url;
      this.kind := kind;
      request := null;
    }

    /** A started transport's request keeps its invariant. */
    ghost predicate Valid()
      reads this, request
    {
      request != null ==> request.Valid()
    }

    /** The RPC callbacks called so far, in order. */
    function Received(): seq<RpcEvent>
      reads this, request
    {
      if request == null then [] else Forward(request.events)
    }

    method Start(metadata: Dict<seq<string>>)
      modifies this
      ensures fresh(request)
      ensures request.Snap() == InitConn(Post, url.path, url.hostname, Flatten(metadata))
      ensures request.endpoint == Endpoint(url.hostname, ConnectPort(IsSecure(url), url.port), IsSecure(url))
      ensures Received() == []
      ensures Valid()
    {
      var headers := FlattenMetadata(metadata);
      request := new Request(Post, url.path, url.hostname, url.port, IsSecure(url), headers);
      InitHead(Post, url.path, url.hostname, headers);
    }

    method SendMessage(msg: seq<byte>) returns (o: Outcome)
      requires Valid()
      modifies request
      ensures request == null ==> o == Failed(NotStarted)
      ensures request != null ==> (request.Snap(), o) == SendStep(old(request.Snap()), IsUnary(kind), msg)
      ensures Received() == old(Received())
      ensures Valid()
    {
      if request == null {
        return Failed(NotStarted);
      }
      if IsUnary(kind) {
        o := request.WriteHeader(ContentLength, ToRadix(|msg|, 10));
        if o.Failed? {
          return;
        }
      }
      WriteKeepsEvents(request.Snap(), Bytes(msg));
      o := request.Write(Bytes(msg));
    }

    method FinishSend() returns (o: Outcome)
      requires Valid()
      modifies request
      ensures request == null ==> o == Failed(NotStarted)
      ensures request != null ==> (request.Snap(), o) == FinishSendStep(old(request.Snap()))
      ensures Received() == old(Received())
      ensures Valid()
    {
      if request == null {
        return Failed(NotStarted);
      }
      o := request.FinishWrite();
      if o.Failed? {
        return;
      }
      request.End();
    }

    /** `request?.destroy()`: nothing at all before `start`. */
    method Cancel()
      requires Valid()
      modifies request
      ensures request != null ==> request.Snap() == DestroyStep(old(request.Snap()))
      ensures Received() == old(Received())
      ensures Valid()
    {
      if request != null {
        request.Destroy();
      }
    }
  }

  // ---------------------------------------------------------------- properties of an RPC

  /** The connection a transport opens: TLS exactly for an `https:` URL, on
      the URL's port when it has a non-zero one and on 443 or 80 otherwise. */
  lemma EndpointOf(url: Url)
    ensures var e := Endpoint(url.hostname, ConnectPort(IsSecure(url), url.port), IsSecure(url));
      && (e.secure <==> url.protocol == "https:")
      && (url.port.Some? && url.port.value != 0 ==> e.port == url.port.value)
      && (url.port.None? || url.port.value == 0 ==> e.port == (if url.protocol == "https:" then 443 else 80))
  {
  }

  /** `t` is `s` after a unary message `msg`: the Content-Length header
      names the payload's size, the head is sent in content-length mode and
      the raw bytes follow it. */
  predicate SentUnary(s: Conn, t: Conn, msg: seq<byte>) {
    && t.lines == s.lines + [HeaderLine(ContentLength, ToRadix(|msg|, 10))]
    && t.sentInit && t.sentContentLength
    && Stream(t) == Stream(s) + [Text(InitData(t.lines)), Bytes(msg)]
    && t.state == s.state && t.pendingEnd == s.pendingEnd
    && (s.state.Connecting? ==> t.calls == s.calls)
  }

  /** A unary message on an open socket goes out with its Content-Length,
      and `finishWrite` then adds nothing to the connection. */
  lemma UnaryMessage(s: Conn, msg: seq<byte>)
    requires Flushed(s) && !s.sentInit && !s.state.Closed?
    ensures SendStep(s, true, msg).1 == Done
    ensures SentUnary(s, SendStep(s, true, msg).0, msg)
    ensures FinishWriteStep(SendStep(s, true, msg).0) == (SendStep(s, true, msg).0, Done)
  {
    assert IsContentLength(ContentLength) by { ContentLengthKeys(); }
    var s1 := s.(lines := s.lines + [HeaderLine(ContentLength, ToRadix(|msg|, 10))], sentContentLength := true);
    assert WriteHeaderStep(s, ContentLength, ToRadix(|msg|, 10)) == (s1, Done);
    assert SendStep(s, true, msg) == WriteStep(s1, Bytes(msg));
    FirstWrite(s1, Bytes(msg));
    assert Body(true, Bytes(msg)) == [Bytes(msg)];
  }

  /** A unary RPC started before the socket connects: the bytes wait in the
      queue, `finishSend` leaves a pending end, and on connect the head and
      the payload go out in order and the request is closed, with no
      socket-level end. */
  lemma UnaryBeforeConnect(s: Conn, msg: seq<byte>)
    requires Coherent(s) && Stream(s) == [] && !s.sentInit && s.state.Connecting? && s.calls == []
    ensures var t := SendStep(s, true, msg).0;
      var u := FinishSendStep(t).0;
      && FinishSendStep(t).1 == Done
      && ConnectStep(u).calls == Writes([Text(InitData(t.lines)), Bytes(msg)])
      && ConnectStep(u).state == Closed
  {
    UnaryMessage(s, msg);
    var t := SendStep(s, true, msg).0;
    assert SentUnary(s, t, msg);
    assert t.calls == [];
    assert Written(t.calls) == [];
    assert Stream(t) == [] + [Text(InitData(t.lines)), Bytes(msg)];
    assert Stream(t) == t.pendingWrites;
    assert t.pendingWrites == [Text(InitData(t.lines)), Bytes(msg)];
  }

  /** In a streaming RPC the first message goes out chunked and any second
      message throws "Cannot write header after init". */
  lemma StreamingSecondMessageFails(s: Conn, first: seq<byte>, second: seq<byte>)
    requires Flushed(s) && !s.sentInit && !s.sentContentLength && !s.state.Closed?
    ensures SendStep(s, false, first).1 == Done
    ensures var t := SendStep(s, false, first).0;
      SendStep(t, false, second) == (t, Failed(HeaderAfterInit))
  {
    SecondChunkedWriteFails(s, Bytes(first), Bytes(second));
  }

  /** A streaming RPC with one non-empty message: the head, one chunk and
      the last chunk, and what follows the head decodes to the message. */
  lemma StreamingOneMessage(s: Conn, msg: seq<byte>)
    requires Flushed(s) && !s.sentInit && !s.sentContentLength && !s.state.Closed? && msg != []
    ensures var t := SendStep(s, false, msg).0;
      && FinishSendStep(t).1 == Done
      && Stream(FinishSendStep(t).0) ==
        Stream(s) + [Text(InitData(t.lines))] + Frame(Bytes(msg)) + [Text(LastChunk)]
    ensures DecodeBody(Concat(Frame(Bytes(msg)) + [Text(LastChunk)])) == Some([msg])
  {
    FirstWrite(s, Bytes(msg));
    var t := SendStep(s, false, msg).0;
    FinishWriteCommits(t);
    var u := FinishWriteStep(t).0;
    if u.state.Connected? {
      ControlGrows(u, End);
    }
    FrameThenLastChunk(msg);
  }

  /** A socket error closes the RPC twice: the writer's own listener emits
      end-http first, so the RPC sees `onEnd()` and then `onEnd(err)`. */
  lemma ErrorEndsTwice(s: Conn, err: string)
    ensures Forward(ErrorStep(s, err).events) == Forward(s.events) + [OnEnd(None), OnEnd(Some(err))]
    ensures ErrorStep(s, err).state == Closed
  {
    var es := ErrorStep(s, err).events;
    assert es == s.events + [EndHttp, SocketError(err)];
    assert Forward(es)[|s.events|] == OnEnd(None);
  }

  /** The response headers reach the RPC unchanged: what the writer emits
      has every value defined, so the filter drops nothing. */
  lemma HeadersReachRpc(s: Conn, status: int, raw: seq<string>, key: string)
    requires |raw| % 2 == 0
    ensures var t := HeadersStep(s, status, raw).0;
      && |t.events| == |s.events| + 1
      && var e := ForwardEvent(t.events[|s.events|]);
      e.OnHeaders? && e.status == status
      && Get(e.headers, key) == if Get(Pairs(raw), key).Some? then Some(One(Get(Pairs(raw), key).value)) else None
  {
    FilterKeepsWriterHeaders(Pairs(raw), key);
  }

  /** A response ending normally closes the RPC once, with no error. */
  lemma CompleteEndsOnce(s: Conn)
    ensures Forward(SocketEndStep(s).events) == Forward(s.events) + [OnEnd(None)]
  {
    assert SocketEndStep(s).events == s.events + [EndHttp];
  }
}
