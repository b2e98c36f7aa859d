/** The HTTP/1.1 request writer of src/make-http-request.ts.

    `Conn` is a snapshot of the writer's closure state together with the
    calls it has made on its socket and the events it has emitted; every
    operation is a step function on snapshots, and the class `Request`
    below performs the same operations on fields, each method proved to
    take the step its function describes. */
module HttpRequest {
  import opened Maybe
  import opened Octets
  import opened JsObject
  import opened Chunked
  import opened Headers
  import opened Events

  datatype Conn = Conn(
    lines: seq<string>,             // the request head, one entry per line
    pendingWrites: seq<Chunk>,      // written while connecting, not yet flushed
    pendingEnd: bool,               // `end()` was called while connecting
    sentInit: bool,                 // the head has been written
    sentContentLength: bool,        // a content-length header was written
    state: SocketState,
    calls: seq<SocketCall>,         // what the writer did to the socket
    events: seq<HttpEvent>)         // what the subscribers received

  function RequestLine(verb: string, path: string): string {
    verb + " " + path + " HTTP/1.1"
  }

  function HostLine(host: string): string {
    "Host: " + host
  }

  function HeaderLine(key: string, value: string): string {
    key + ": " + value
  }

  /** `lines.join('\r\n') + '\r\n\r\n'`. */
  function InitData(lines: seq<string>): string {
    Join(lines, CRLF) + CRLF + CRLF
  }

  /** Everything the writer has committed to the connection, in order: the
      chunks already on the wire followed by those still queued. */
  function Stream(s: Conn): seq<Chunk> {
    Written(s.calls) + s.pendingWrites
  }

  /** The state right after the closure's `let` declarations. */
  function Fresh(verb: string, path: string, host: string): Conn {
    Conn([RequestLine(verb, path), HostLine(host)], [], false, false, false, Connecting, [], [])
  }

  // ---------------------------------------------------------------- the step functions

  /** `writeHeader(key, value)`. */
  function WriteHeaderStep(s: Conn, key: string, value: string): (Conn, Outcome) {
    if s.sentInit then (s, Failed(HeaderAfterInit))
    else
      (s.(lines := s.lines + [HeaderLine(key, value)],
          sentContentLength := s.sentContentLength || IsContentLength(key)), Done)
  }

  /** The option headers, written one after the other by the constructor's loop. */
  function WriteHeaders(s: Conn, hs: seq<(string, string)>): Conn {
    if hs == [] then s
    else WriteHeaderStep(WriteHeaders(s, hs[..|hs| - 1]), hs[|hs| - 1].0, hs[|hs| - 1].1).0
  }

  function InitConn(verb: string, path: string, host: string, headers: Dict<string>): Conn {
    WriteHeaders(Fresh(verb, path, host), headers)
  }

  /** `writeToSocket(buff)`. */
  function WriteToSocketStep(s: Conn, c: Chunk): (Conn, Outcome) {
    match s.state
    case Closed => (s, Failed(SocketClosed))
    case Connected => (s.(calls := s.calls + [Write(c)]), Done)
    case Connecting => (s.(pendingWrites := s.pendingWrites + [c]), Done)
  }

  /** Consecutive `writeToSocket` calls, stopping at the first that throws. */
  function EmitAll(s: Conn, cs: seq<Chunk>): (Conn, Outcome)
    decreases |cs|
  {
    if cs == [] then (s, Done)
    else
      var (t, o) := WriteToSocketStep(s, cs[0]);
      if o.Failed? then (t, o) else EmitAll(t, cs[1..])
  }

  /** The `if(!sentInit)` block of `write`: the head, then the flag. */
  function SendInitStep(s: Conn): (Conn, Outcome) {
    var (t, o) := WriteToSocketStep(s, Text(InitData(s.lines)));
    if o.Failed? then (t, o) else (t.(sentInit := true), Done)
  }

  /** What `write` puts after the head: the raw content in content-length
      mode, a chunk frame otherwise. */
  function Body(sentContentLength: bool, content: Chunk): seq<Chunk> {
    if sentContentLength then [content] else Frame(content)
  }

  const TransferEncoding: string := "Transfer-Encoding"
  const ChunkedCoding: string := "chunked"

  /** The first block of `write`: the Transfer-Encoding header, unless in
      content-length mode. */
  function ChunkedHeaderStep(s: Conn): (Conn, Outcome) {
    if s.sentContentLength then (s, Done) else WriteHeaderStep(s, TransferEncoding, ChunkedCoding)
  }

  /** The second block of `write`: the head, unless already sent. */
  function InitOnceStep(s: Conn): (Conn, Outcome) {
    if s.sentInit then (s, Done) else SendInitStep(s)
  }

  /** `write(content)`. */
  function WriteStep(s: Conn, content: Chunk): (Conn, Outcome) {
    var r1 := ChunkedHeaderStep(s);
    if r1.1.Failed? then r1
    else
      var r2 := InitOnceStep(r1.0);
      if r2.1.Failed? then r2
      else EmitAll(r2.0, Body(r2.0.sentContentLength, content))
  }

  /** `finishWrite()`. */
  function FinishWriteStep(s: Conn): (Conn, Outcome) {
    if s.sentContentLength then (s, Done) else WriteToSocketStep(s, Text(LastChunk))
  }

  /** `end()`. */
  function EndStep(s: Conn): Conn {
    match s.state
    case Connecting => s.(pendingEnd := true)
    case Connected => s.(calls := s.calls + [End])
    case Closed => s
  }

  /** `destroy()`. */
  function DestroyStep(s: Conn): Conn {
    s.(calls := s.calls + [Destroy])
  }

  /** `handleSocketEnd()`, reached from message-complete and from a socket error. */
  function SocketEndStep(s: Conn): Conn {
    s.(state := Closed, events := s.events + [EndHttp], calls := s.calls + [End])
  }

  /** `onConnect()`: flush the queue in order, then apply a pending end. */
  function ConnectStep(s: Conn): Conn {
    s.(state := if s.pendingEnd then Closed else Connected,
       calls := s.calls + Writes(s.pendingWrites),
       pendingWrites := [])
  }

  /** A socket 'error': the writer's own listener was registered first, so
      `handleSocketEnd` runs (and emits end-http) before subscribers see the error. */
  function ErrorStep(s: Conn, err: string): Conn {
    var t := SocketEndStep(s);
    t.(events := t.events + [SocketError(err)])
  }

  /** `onHeadersComplete(info)`. */
  function HeadersStep(s: Conn, status: int, raw: seq<string>): (Conn, Outcome) {
    match HeaderPairs(raw)
    case None => (s, Failed(MissingHeaderValue))
    case Some(h) => (s.(events := s.events + [Headers(status, h)]), Done)
  }

  /** `onBody(chunk, offset, length)`. */
  function BodyStep(s: Conn, chunk: seq<byte>, offset: nat, length: nat): Conn {
    s.(events := s.events + [Data(Subarray(chunk, offset, length))])
  }

  // ---------------------------------------------------------------- traces

  /** Everything that can happen to a request: its own methods, the socket's
      events and the parser's callbacks. */
  datatype Op =
    | WriteHeaderOp(key: string, value: string)
    | WriteOp(content: Chunk)
    | FinishWriteOp
    | EndOp
    | DestroyOp
    | ConnectOp
    | HeadersOp(status: int, raw: seq<string>)
    | BodyOp(chunk: seq<byte>, offset: nat, length: nat)
    | MessageCompleteOp
    | ErrorOp(err: string)

  function Apply(s: Conn, op: Op): (Conn, Outcome) {
    match op
    case WriteHeaderOp(k, v) => WriteHeaderStep(s, k, v)
    case WriteOp(c) => WriteStep(s, c)
    case FinishWriteOp => FinishWriteStep(s)
    case EndOp => (EndStep(s), Done)
    case DestroyOp => (DestroyStep(s), Done)
    case ConnectOp => (ConnectStep(s), Done)
    case HeadersOp(status, raw) => HeadersStep(s, status, raw)
    case BodyOp(chunk, offset, length) => (BodyStep(s, chunk, offset, length), Done)
    case MessageCompleteOp => (SocketEndStep(s), Done)
    case ErrorOp(err) => (ErrorStep(s, err), Done)
  }

  /** A series of operations; one that throws leaves its partial changes and
      the request goes on. */
  function Run(s: Conn, ops: seq<Op>): Conn {
    if ops == [] then s else Apply(Run(s, ops[..|ops| - 1]), ops[|ops| - 1]).0
  }

  predicate IsPrefix<T(==)>(a: seq<T>, b: seq<T>) {
    |a| <= |b| && b[..|a|] == a
  }

  /** The invariant every request keeps:
      - once connected nothing is left queued;
      - a pending end never survives into the connected state;
      - once the head is marked as sent, it is on the connection. */
  predicate Coherent(s: Conn) {
    && Flushed(s)
    && (s.pendingEnd ==> !s.state.Connected?)
    && (s.sentInit ==> Text(InitData(s.lines)) in Stream(s))
  }

  /** What only grows: lines, the stream, the calls and the events; and what
      is frozen once the head is sent: the lines and the framing mode. */
  predicate Grows(s: Conn, t: Conn) {
    && IsPrefix(s.lines, t.lines)
    && IsPrefix(Stream(s), Stream(t))
    && IsPrefix(s.calls, t.calls)
    && IsPrefix(s.events, t.events)
    && (s.sentInit ==> t.sentInit && t.lines == s.lines && t.sentContentLength == s.sentContentLength)
    && (s.sentContentLength ==> t.sentContentLength)
  }

  // ---------------------------------------------------------------- the head

  function HeaderLines(hs: seq<(string, string)>): (r: seq<string>)
    ensures |r| == |hs| && forall i :: 0 <= i < |hs| ==> r[i] == HeaderLine(hs[i].0, hs[i].1)
  {
    seq(|hs|, i requires 0 <= i < |hs| => HeaderLine(hs[i].0, hs[i].1))
  }

  predicate HasContentLength(hs: seq<(string, string)>) {
    exists i :: 0 <= i < |hs| && IsContentLength(hs[i].0)
  }

  /** One more header adds its line at the end, and is a content-length
      header exactly when its key is. */
  lemma HeadersSnoc(hs: seq<(string, string)>)
    requires hs != []
    ensures HeaderLines(hs) == HeaderLines(hs[..|hs| - 1]) + [HeaderLine(hs[|hs| - 1].0, hs[|hs| - 1].1)]
    ensures HasContentLength(hs) <==> HasContentLength(hs[..|hs| - 1]) || IsContentLength(hs[|hs| - 1].0)
  {
    var n := |hs| - 1;
    if HasContentLength(hs) && !IsContentLength(hs[n].0) {
      var i :| 0 <= i < |hs| && IsContentLength(hs[i].0);
      assert hs[..n][i] == hs[i];
    }
    if HasContentLength(hs[..n]) {
      var i :| 0 <= i < n && IsContentLength(hs[..n][i].0);
      assert hs[i] == hs[..n][i];
    }
  }

  /** Before the head is sent each header is appended as `key: value` in
      call order, and content-length mode is on exactly when one of the keys
      is a content-length key; nothing else changes. */
  lemma {:induction false} WriteHeadersAppend(s: Conn, hs: seq<(string, string)>)
    requires !s.sentInit
    ensures WriteHeaders(s, hs) ==
      s.(lines := s.lines + HeaderLines(hs),
         sentContentLength := s.sentContentLength || HasContentLength(hs))
  {
    if hs != [] {
      var n := |hs| - 1;
      WriteHeadersAppend(s, hs[..n]);
      HeadersSnoc(hs);
    }
  }

  /** The head starts as the request line and the Host line, followed by one
      `key: value` line per option header in order; nothing has been written. */
  lemma InitHead(verb: string, path: string, host: string, headers: Dict<string>)
    ensures InitConn(verb, path, host, headers).lines ==
      [RequestLine(verb, path), HostLine(host)] + HeaderLines(headers)
    ensures InitConn(verb, path, host, headers).sentContentLength <==> HasContentLength(headers)
    ensures var s := InitConn(verb, path, host, headers);
      !s.sentInit && !s.pendingEnd && s.state == Connecting && Stream(s) == [] && Coherent(s)
      && s.calls == [] && s.events == []
  {
    WriteHeadersAppend(Fresh(verb, path, host), headers);
  }

  // ---------------------------------------------------------------- writing to the socket

  /** Chunks committed to the connection: straight to the wire when
      connected, onto the queue when connecting, nowhere when closed. */
  function Commit(s: Conn, cs: seq<Chunk>): Conn {
    match s.state
    case Connected => s.(calls := s.calls + Writes(cs))
    case Connecting => s.(pendingWrites := s.pendingWrites + cs)
    case Closed => s
  }

  /** Once connected nothing is left queued. */
  predicate Flushed(s: Conn) {
    s.state.Connected? ==> s.pendingWrites == []
  }

  /** Committed chunks land at the end of the connection's stream, in order,
      whether they went to the wire or to the queue. */
  lemma CommitStream(s: Conn, cs: seq<Chunk>)
    requires Flushed(s) && !s.state.Closed?
    ensures Stream(Commit(s, cs)) == Stream(s) + cs
    ensures Flushed(Commit(s, cs))
  {
    if s.state.Connected? {
      WrittenAppend(s.calls, Writes(cs));
      WrittenWrites(cs);
    }
  }

  /** A series of `writeToSocket` calls on a connected socket writes every
      chunk, in order. */
  lemma {:induction false} EmitConnected(s: Conn, cs: seq<Chunk>)
    requires s.state.Connected?
    ensures EmitAll(s, cs) == (s.(calls := s.calls + Writes(cs)), Done)
    decreases |cs|
  {
    if cs == [] {
      assert s.calls + Writes(cs) == s.calls;
    } else {
      var t := s.(calls := s.calls + [Write(cs[0])]);
      assert EmitAll(s, cs) == EmitAll(t, cs[1..]);
      EmitConnected(t, cs[1..]);
      assert Writes(cs) == [Write(cs[0])] + Writes(cs[1..]);
      assert t.calls + Writes(cs[1..]) == s.calls + Writes(cs);
    }
  }

  /** A series of `writeToSocket` calls on a connecting socket queues every
      chunk, in order. */
  lemma {:induction false} EmitConnecting(s: Conn, cs: seq<Chunk>)
    requires s.state.Connecting?
    ensures EmitAll(s, cs) == (s.(pendingWrites := s.pendingWrites + cs), Done)
    decreases |cs|
  {
    if cs == [] {
      assert s.pendingWrites + cs == s.pendingWrites;
    } else {
      var t := s.(pendingWrites := s.pendingWrites + [cs[0]]);
      assert EmitAll(s, cs) == EmitAll(t, cs[1..]);
      EmitConnecting(t, cs[1..]);
      assert t.pendingWrites + cs[1..] == s.pendingWrites + cs;
    }
  }

  /** A series of `writeToSocket` calls throws exactly when the socket is
      closed and there is something to write, and then changes nothing;
      otherwise it commits every chunk. */
  lemma EmitAllCommits(s: Conn, cs: seq<Chunk>)
    ensures EmitAll(s, cs) ==
      if s.state.Closed? && cs != [] then (s, Failed(SocketClosed)) else (Commit(s, cs), Done)
  {
    if s.state.Connected? {
      EmitConnected(s, cs);
    } else if s.state.Connecting? {
      EmitConnecting(s, cs);
    }
  }

  /** One `writeToSocket` call is a series of one. */
  lemma EmitAllOne(s: Conn, a: Chunk)
    ensures EmitAll(s, [a]) == WriteToSocketStep(s, a)
  {
    assert [a][1..] == [];
  }

  /** Three `writeToSocket` calls in a row are a series of three. */
  lemma EmitAllThree(s: Conn, a: Chunk, b: Chunk, c: Chunk)
    ensures EmitAll(s, [a, b, c]) ==
      var r1 := WriteToSocketStep(s, a);
      if r1.1.Failed? then r1
      else
        var r2 := WriteToSocketStep(r1.0, b);
        if r2.1.Failed? then r2 else WriteToSocketStep(r2.0, c)
  {
    assert [a, b, c][1..] == [b, c];
    assert [b, c][1..] == [c];
    var r1 := WriteToSocketStep(s, a);
    if r1.1.Done? {
      assert EmitAll(s, [a, b, c]) == EmitAll(r1.0, [b, c]);
      var r2 := WriteToSocketStep(r1.0, b);
      if r2.1.Done? {
        assert EmitAll(r1.0, [b, c]) == EmitAll(r2.0, [c]);
        EmitAllOne(r2.0, c);
      }
    }
  }

  // ---------------------------------------------------------------- write

  /** The first write that reaches an open socket sends the head (with the
      Transfer-Encoding line in chunked mode) before any body chunk, and
      marks it sent. */
  lemma FirstWrite(s: Conn, content: Chunk)
    requires Flushed(s) && !s.sentInit && !s.state.Closed?
    ensures var (t, o) := WriteStep(s, content);
      && o == Done && t.sentInit
      && t.sentContentLength == s.sentContentLength
      && t.lines == s.lines + (if s.sentContentLength then [] else [HeaderLine(TransferEncoding, ChunkedCoding)])
      && Stream(t) == Stream(s) + [Text(InitData(t.lines))] + Body(s.sentContentLength, content)
      && t.state == s.state && t.pendingEnd == s.pendingEnd && t.events == s.events && Flushed(t)
      && (s.state.Connecting? ==> t.calls == s.calls)
  {
    assert !IsContentLength(TransferEncoding) by { ContentLengthKeys(); }
    var s1 := if s.sentContentLength then s else WriteHeaderStep(s, TransferEncoding, ChunkedCoding).0;
    var head := Text(InitData(s1.lines));
    EmitAllCommits(s1, [head]);
    CommitStream(s1, [head]);
    assert ChunkedHeaderStep(s) == (s1, Done);
    var s2 := Commit(s1, [head]).(sentInit := true);
    assert InitOnceStep(s1) == (s2, Done) by {
      assert SendInitStep(s1) == (s2, Done);
    }
    assert s2.sentContentLength == s.sentContentLength;
    var body := Body(s.sentContentLength, content);
    assert WriteStep(s, content) == EmitAll(s2, body);
    EmitAllCommits(s2, body);
    CommitStream(s2, body);
  }

  /** After the head is sent a write in content-length mode commits the raw
      content (or throws when closed), and in chunked mode it always throws
      "Cannot write header after init" without changing anything. */
  lemma LaterWrite(s: Conn, content: Chunk)
    requires Flushed(s) && s.sentInit
    ensures !s.sentContentLength ==> WriteStep(s, content) == (s, Failed(HeaderAfterInit))
    ensures s.sentContentLength && s.state.Closed? ==> WriteStep(s, content) == (s, Failed(SocketClosed))
    ensures s.sentContentLength && !s.state.Closed? ==>
      var (t, o) := WriteStep(s, content);
      o == Done && Stream(t) == Stream(s) + [content] && Flushed(t)
      && t.(calls := s.calls, pendingWrites := s.pendingWrites) == s
  {
    if s.sentContentLength {
      EmitAllCommits(s, [content]);
      if !s.state.Closed? {
        CommitStream(s, [content]);
      }
    }
  }

  /** A write to a closed socket before the head was sent throws "Socket is
      closed", keeping the Transfer-Encoding line it already pushed in
      chunked mode; nothing is committed. */
  lemma WriteWhenClosed(s: Conn, content: Chunk)
    requires !s.sentInit && s.state.Closed?
    ensures var (t, o) := WriteStep(s, content);
      && o == Failed(SocketClosed)
      && t == s.(lines := s.lines + (if s.sentContentLength then [] else [HeaderLine(TransferEncoding, ChunkedCoding)]))
  {
    assert !IsContentLength(TransferEncoding) by { ContentLengthKeys(); }
  }

  /** In chunked mode only the first write can succeed: whatever the second
      write carries, it throws "Cannot write header after init". */
  lemma SecondChunkedWriteFails(s: Conn, first: Chunk, second: Chunk)
    requires Flushed(s) && !s.sentInit && !s.sentContentLength && !s.state.Closed?
    ensures WriteStep(s, first).1 == Done
    ensures var t := WriteStep(s, first).0;
      WriteStep(t, second) == (t, Failed(HeaderAfterInit))
  {
    FirstWrite(s, first);
    LaterWrite(WriteStep(s, first).0, second);
  }

  // ---------------------------------------------------------------- finishWrite, connect

  /** `finishWrite` commits the last chunk in chunked mode (throwing when
      closed) and does nothing at all in content-length mode. */
  lemma FinishWriteCommits(s: Conn)
    requires Flushed(s)
    ensures s.sentContentLength ==> FinishWriteStep(s) == (s, Done)
    ensures !s.sentContentLength ==>
      var (t, o) := FinishWriteStep(s);
      && (o.Failed? <==> s.state.Closed?)
      && (o.Failed? ==> t == s)
      && (o.Done? ==> Stream(t) == Stream(s) + [Text(LastChunk)] && Flushed(t))
      && t.(calls := s.calls, pendingWrites := s.pendingWrites) == s
  {
    EmitAllCommits(s, [Text(LastChunk)]);
    if !s.state.Closed? {
      CommitStream(s, [Text(LastChunk)]);
    }
  }

  /** Connecting flushes the queue to the wire in order without reordering
      or losing anything, leaves the queue empty, ends in the closed state
      exactly when an end was pending, and never ends the socket. */
  lemma ConnectFlushes(s: Conn)
    ensures var t := ConnectStep(s);
      && Stream(t) == Stream(s)
      && Written(t.calls) == Written(s.calls) + s.pendingWrites
      && t.pendingWrites == []
      && (t.state.Closed? <==> s.pendingEnd)
      && t.state != Connecting
      && forall i :: |s.calls| <= i < |t.calls| ==> t.calls[i].Write?
  {
    WrittenAppend(s.calls, Writes(s.pendingWrites));
    WrittenWrites(s.pendingWrites);
  }

  // ---------------------------------------------------------------- the invariant and what grows

  lemma PrefixTrans<T>(a: seq<T>, b: seq<T>, c: seq<T>)
    requires IsPrefix(a, b) && IsPrefix(b, c)
    ensures IsPrefix(a, c)
  {
    assert c[..|a|] == c[..|b|][..|a|];
  }

  lemma PrefixIn<T>(x: T, a: seq<T>, b: seq<T>)
    requires x in a && IsPrefix(a, b)
    ensures x in b
  {
    var i :| 0 <= i < |a| && a[i] == x;
    assert b[i] == b[..|a|][i];
  }

  lemma PrefixAppend<T>(a: seq<T>, b: seq<T>)
    ensures IsPrefix(a, a + b)
  {
    assert (a + b)[..|a|] == a;
  }

  lemma GrowsTrans(s: Conn, t: Conn, u: Conn)
    requires Grows(s, t) && Grows(t, u)
    ensures Grows(s, u)
  {
    PrefixTrans(s.lines, t.lines, u.lines);
    PrefixTrans(Stream(s), Stream(t), Stream(u));
    PrefixTrans(s.calls, t.calls, u.calls);
    PrefixTrans(s.events, t.events, u.events);
  }

  /** Appending a control call changes nothing on the connection. */
  lemma ControlGrows(s: Conn, c: SocketCall)
    requires !c.Write?
    ensures Stream(s.(calls := s.calls + [c])) == Stream(s)
    ensures IsPrefix(s.calls, s.calls + [c])
  {
    WrittenControl(s.calls, c);
    PrefixAppend(s.calls, [c]);
  }

  lemma CommitGrows(s: Conn, cs: seq<Chunk>)
    requires Flushed(s)
    ensures Grows(s, Commit(s, cs)) && Flushed(Commit(s, cs))
  {
    var t := Commit(s, cs);
    PrefixAppend(s.calls, Writes(cs));
    if !s.state.Closed? {
      CommitStream(s, cs);
      PrefixAppend(Stream(s), cs);
    }
  }

  /** What a write does to everything but the head and the stream: no
      change of socket state, of the pending end or of the events. */
  lemma WriteEffect(s: Conn, content: Chunk)
    requires Flushed(s)
    ensures var t := WriteStep(s, content).0;
      Grows(s, t) && Flushed(t) && t.state == s.state && t.pendingEnd == s.pendingEnd && t.events == s.events
  {
    var (s1, o1) := ChunkedHeaderStep(s);
    PrefixAppend(s.lines, [HeaderLine(TransferEncoding, ChunkedCoding)]);
    assert Grows(s, s1);
    if o1.Done? {
      var (s2, o2) := InitOnceStep(s1);
      if !s1.sentInit {
        var head := Text(InitData(s1.lines));
        EmitAllCommits(s1, [head]);
        CommitGrows(s1, [head]);
      }
      assert Grows(s1, s2);
      GrowsTrans(s, s1, s2);
      if o2.Done? {
        var body := Body(s2.sentContentLength, content);
        EmitAllCommits(s2, body);
        CommitGrows(s2, body);
        GrowsTrans(s, s2, Commit(s2, body));
      }
    }
  }

  /** Writing never emits an event, whatever the state of the socket. */
  lemma {:induction false} EmitAllKeepsEvents(s: Conn, cs: seq<Chunk>)
    ensures EmitAll(s, cs).0.events == s.events
    decreases |cs|
  {
    if cs != [] {
      EmitAllKeepsEvents(WriteToSocketStep(s, cs[0]).0, cs[1..]);
    }
  }

  lemma WriteKeepsEvents(s: Conn, content: Chunk)
    ensures WriteStep(s, content).0.events == s.events
  {
    var r2 := InitOnceStep(ChunkedHeaderStep(s).0).0;
    EmitAllKeepsEvents(r2, Body(r2.sentContentLength, content));
  }

  /** Emitting events changes nothing on the connection. */
  lemma EventsGrow(s: Conn, es: seq<HttpEvent>)
    ensures Grows(s, s.(events := s.events + es))
  {
    PrefixAppend(s.events, es);
    PrefixTrans(s.lines, s.lines, s.lines);
    assert s.lines[..|s.lines|] == s.lines;
    assert s.calls[..|s.calls|] == s.calls;
    assert Stream(s)[..|Stream(s)|] == Stream(s);
  }

  /** `handleSocketEnd` only appends: end-http (and possibly more events) and a socket end. */
  lemma SocketEndGrows(s: Conn, es: seq<HttpEvent>)
    ensures Grows(s, s.(state := Closed, events := s.events + es, calls := s.calls + [End]))
  {
    ControlGrows(s, End);
    PrefixAppend(s.events, es);
    assert s.lines[..|s.lines|] == s.lines;
  }

  lemma GrowsRefl(s: Conn)
    ensures Grows(s, s)
  {
    assert s.lines[..|s.lines|] == s.lines;
    assert s.calls[..|s.calls|] == s.calls;
    assert s.events[..|s.events|] == s.events;
    assert Stream(s)[..|Stream(s)|] == Stream(s);
  }

  lemma HeaderGrows(s: Conn, key: string, value: string)
    ensures Grows(s, WriteHeaderStep(s, key, value).0)
  {
    GrowsRefl(s);
    PrefixAppend(s.lines, [HeaderLine(key, value)]);
  }

  lemma FinishGrows(s: Conn)
    requires Flushed(s)
    ensures Grows(s, FinishWriteStep(s).0)
  {
    GrowsRefl(s);
    EmitAllCommits(s, [Text(LastChunk)]);
    CommitGrows(s, [Text(LastChunk)]);
  }

  lemma EndGrows(s: Conn)
    ensures Grows(s, EndStep(s))
  {
    GrowsRefl(s);
    if s.state.Connected? {
      ControlGrows(s, End);
    }
  }

  lemma DestroyGrows(s: Conn)
    ensures Grows(s, DestroyStep(s))
  {
    GrowsRefl(s);
    ControlGrows(s, Destroy);
  }

  lemma ConnectGrows(s: Conn)
    ensures Grows(s, ConnectStep(s))
  {
    GrowsRefl(s);
    ConnectFlushes(s);
    PrefixAppend(s.calls, Writes(s.pendingWrites));
  }

  lemma HeadersGrow(s: Conn, status: int, raw: seq<string>)
    ensures Grows(s, HeadersStep(s, status, raw).0)
  {
    if HeaderPairs(raw).Some? {
      EventsGrow(s, [Headers(status, HeaderPairs(raw).value)]);
    } else {
      GrowsRefl(s);
    }
  }

  lemma ErrorGrows(s: Conn, err: string)
    ensures Grows(s, ErrorStep(s, err))
  {
    SocketEndGrows(s, [EndHttp, SocketError(err)]);
    assert ErrorStep(s, err) == s.(state := Closed, events := s.events + [EndHttp, SocketError(err)], calls := s.calls + [End]);
  }

  /** One operation of any kind keeps what only grows growing, and the head
      and the framing mode frozen once the head is sent. */
  lemma ApplyGrows(s: Conn, op: Op)
    requires Flushed(s)
    ensures Grows(s, Apply(s, op).0)
  {
    match op
    case WriteHeaderOp(k, v) => HeaderGrows(s, k, v);
    case WriteOp(c) => WriteEffect(s, c);
    case FinishWriteOp => FinishGrows(s);
    case EndOp => EndGrows(s);
    case DestroyOp => DestroyGrows(s);
    case ConnectOp => ConnectGrows(s);
    case HeadersOp(status, raw) => HeadersGrow(s, status, raw);
    case BodyOp(chunk, offset, length) => EventsGrow(s, [Data(Subarray(chunk, offset, length))]);
    case MessageCompleteOp => SocketEndGrows(s, [EndHttp]);
    case ErrorOp(err) => ErrorGrows(s, err);
  }

  /** One operation of any kind keeps the invariant. */
  lemma ApplyCoherent(s: Conn, op: Op)
    requires Coherent(s)
    ensures Coherent(Apply(s, op).0)
  {
    var t := Apply(s, op).0;
    ApplyGrows(s, op);
    if s.sentInit {
      PrefixIn(Text(InitData(s.lines)), Stream(s), Stream(t));
    }
    match op
    case WriteOp(c) =>
      WriteEffect(s, c);
      if !s.sentInit && !s.state.Closed? {
        FirstWrite(s, c);
        assert Stream(t)[|Stream(s)|] == Text(InitData(t.lines));
      } else if !s.sentInit {
        WriteWhenClosed(s, c);
      }
    case FinishWriteOp =>
      FinishWriteCommits(s);
    case _ =>
  }

  /** Over any sequence of operations the invariant holds if it held at the
      start, and everything grows as `Grows` says. */
  lemma {:induction false} RunGrows(s: Conn, ops: seq<Op>)
    requires Coherent(s)
    ensures Coherent(Run(s, ops)) && Grows(s, Run(s, ops))
  {
    if ops != [] {
      var n := |ops| - 1;
      RunGrows(s, ops[..n]);
      ApplyCoherent(Run(s, ops[..n]), ops[n]);
      ApplyGrows(Run(s, ops[..n]), ops[n]);
      GrowsTrans(s, Run(s, ops[..n]), Run(s, ops));
    } else {
      assert Stream(s)[..|Stream(s)|] == Stream(s);
      assert s.lines[..|s.lines|] == s.lines;
      assert s.calls[..|s.calls|] == s.calls;
      assert s.events[..|s.events|] == s.events;
    }
  }

  /** Once the head of a chunked request is sent, no later write ever
      succeeds, whatever happened in between. */
  lemma ChunkedStaysBroken(s: Conn, ops: seq<Op>, content: Chunk)
    requires Coherent(s) && s.sentInit && !s.sentContentLength
    ensures var t := Run(s, ops);
      Apply(t, WriteOp(content)) == (t, Failed(HeaderAfterInit))
  {
    RunGrows(s, ops);
  }

  // ---------------------------------------------------------------- the corrected write

  /** `write` as evidently intended for a streaming body: the
      Transfer-Encoding line only while the head is unsent, each chunk sized
      by the octets it puts on the wire, and no chunk for an empty write. */
  function WriteStreamingStep(s: Conn, content: Chunk): (Conn, Outcome) {
    var r := InitOnceStep(StreamingHeaderStep(s));
    if r.1.Failed? then r
    else EmitAll(r.0, if r.0.sentContentLength then [content] else StreamFrame(content))
  }

  /** The Transfer-Encoding line, written only while the head is unsent. */
  function StreamingHeaderStep(s: Conn): Conn {
    if s.sentContentLength || s.sentInit then s
    else WriteHeaderStep(s, TransferEncoding, ChunkedCoding).0
  }

  /** Several corrected writes in order, stopping at the first that throws. */
  function WriteAllStreaming(s: Conn, cs: seq<Chunk>): (Conn, Outcome) {
    if cs == [] then (s, Done)
    else
      var (t, o) := WriteAllStreaming(s, cs[..|cs| - 1]);
      if o.Failed? then (t, o) else WriteStreamingStep(t, cs[|cs| - 1])
  }

  /** The first corrected write on an open socket sends the head with the
      Transfer-Encoding line, then the frame of its content. */
  lemma FirstStreamingWrite(s: Conn, content: Chunk)
    requires Flushed(s) && !s.sentInit && !s.sentContentLength && !s.state.Closed?
    ensures var (t, o) := WriteStreamingStep(s, content);
      && o == Done && t.sentInit && !t.sentContentLength && Flushed(t)
      && t.lines == s.lines + [HeaderLine(TransferEncoding, ChunkedCoding)]
      && Stream(t) == Stream(s) + [Text(InitData(t.lines))] + StreamFrame(content)
      && t.state == s.state && t.pendingEnd == s.pendingEnd
  {
    assert !IsContentLength(TransferEncoding) by { ContentLengthKeys(); }
    var s1 := WriteHeaderStep(s, TransferEncoding, ChunkedCoding).0;
    var head := Text(InitData(s1.lines));
    EmitAllCommits(s1, [head]);
    CommitStream(s1, [head]);
    var s2 := Commit(s1, [head]).(sentInit := true);
    assert SendInitStep(s1) == (s2, Done);
    EmitAllCommits(s2, StreamFrame(content));
    CommitStream(s2, StreamFrame(content));
  }

  /** A later corrected write on an open socket commits the frame of its
      content and nothing else; it does not touch the head. */
  lemma LaterStreamingWrite(s: Conn, content: Chunk)
    requires Flushed(s) && s.sentInit && !s.sentContentLength && !s.state.Closed?
    ensures var (t, o) := WriteStreamingStep(s, content);
      && o == Done && t.sentInit && !t.sentContentLength && Flushed(t)
      && t.lines == s.lines
      && Stream(t) == Stream(s) + StreamFrame(content)
      && t.state == s.state && t.pendingEnd == s.pendingEnd
  {
    EmitAllCommits(s, StreamFrame(content));
    CommitStream(s, StreamFrame(content));
  }

  /** The corrected write keeps the invariant too. */
  lemma StreamingCoherent(s: Conn, content: Chunk)
    requires Coherent(s)
    ensures Coherent(WriteStreamingStep(s, content).0)
  {
    var t := WriteStreamingStep(s, content).0;
    if s.sentContentLength {
      assert WriteStreamingStep(s, content) == WriteStep(s, content);
      ApplyCoherent(s, WriteOp(content));
    } else if s.state.Closed? {
      if s.sentInit {
        EmitAllCommits(s, StreamFrame(content));
      }
    } else if !s.sentInit {
      FirstStreamingWrite(s, content);
      assert Stream(t)[|Stream(s)|] == Text(InitData(t.lines));
    } else {
      LaterStreamingWrite(s, content);
      PrefixAppend(Stream(s), StreamFrame(content));
      PrefixIn(Text(InitData(s.lines)), Stream(s), Stream(t));
    }
  }

  /** `t` is `s` after corrected writes of `cs` from an unsent head: the
      head with its Transfer-Encoding line, then one frame per write. */
  predicate StreamedFrom(s: Conn, t: Conn, cs: seq<Chunk>) {
    && t.sentInit && !t.sentContentLength && Flushed(t) && t.state == s.state
    && t.lines == s.lines + [HeaderLine(TransferEncoding, ChunkedCoding)]
    && Stream(t) == Stream(s) + [Text(InitData(t.lines))] + StreamFrames(cs)
  }

  /** Every corrected write reaches the connection: after the head, one
      frame per write, in order. */
  lemma {:induction false} StreamingWrites(s: Conn, cs: seq<Chunk>)
    requires Flushed(s) && !s.sentInit && !s.sentContentLength && !s.state.Closed?
    requires cs != []
    ensures WriteAllStreaming(s, cs).1 == Done
    ensures StreamedFrom(s, WriteAllStreaming(s, cs).0, cs)
  {
    var n := |cs| - 1;
    if n == 0 {
      StreamingFirst(s, cs[0]);
      assert cs == [cs[0]];
    } else {
      StreamingWrites(s, cs[..n]);
      var t := WriteAllStreaming(s, cs[..n]).0;
      assert WriteAllStreaming(s, cs) == WriteStreamingStep(t, cs[n]);
      StreamedStep(s, t, cs[..n], cs[n]);
      assert cs[..n] + [cs[n]] == cs;
    }
  }

  /** The first of the corrected writes. */
  lemma StreamingFirst(s: Conn, c: Chunk)
    requires Flushed(s) && !s.sentInit && !s.sentContentLength && !s.state.Closed?
    ensures WriteAllStreaming(s, [c]) == WriteStreamingStep(s, c)
    ensures WriteStreamingStep(s, c).1 == Done
    ensures StreamedFrom(s, WriteStreamingStep(s, c).0, [c])
  {
    WriteAllOne(s, c);
    FirstStreamingWrite(s, c);
    StreamFramesOne(c);
  }

  lemma WriteAllOne(s: Conn, c: Chunk)
    ensures WriteAllStreaming(s, [c]) == WriteStreamingStep(s, c)
  {
    assert [c][..0] == [];
  }

  /** One more corrected write extends what has been streamed by its frame. */
  lemma StreamedStep(s: Conn, t: Conn, cs: seq<Chunk>, c: Chunk)
    requires StreamedFrom(s, t, cs) && !s.state.Closed?
    ensures WriteStreamingStep(t, c).1 == Done
    ensures StreamedFrom(s, WriteStreamingStep(t, c).0, cs + [c])
  {
    LaterStreamingWrite(t, c);
    StreamFramesSnoc(cs, c);
    var u := WriteStreamingStep(t, c).0;
    var before := Stream(s) + [Text(InitData(t.lines))];
    assert Stream(u) == before + StreamFrames(cs) + StreamFrame(c);
    assert Stream(u) == before + StreamFrames(cs + [c]);
  }

  /** The corrected writer's streaming request on a fresh connection: the
      head, one frame per write, and the last chunk from `finishWrite`. */
  lemma StreamingRequest(s: Conn, cs: seq<Chunk>)
    requires Flushed(s) && Stream(s) == [] && !s.sentInit && !s.sentContentLength && !s.state.Closed?
    requires cs != []
    ensures WriteAllStreaming(s, cs).1 == Done
    ensures var t := WriteAllStreaming(s, cs).0;
      && FinishWriteStep(t).1 == Done
      && Stream(FinishWriteStep(t).0) == [Text(InitData(t.lines))] + StreamFrames(cs) + [Text(LastChunk)]
  {
    StreamingWrites(s, cs);
    var t := WriteAllStreaming(s, cs).0;
    assert StreamedFrom(s, t, cs);
    var head := Text(InitData(t.lines));
    assert Stream(t) == [head] + StreamFrames(cs) by {
      assert Stream(t) == [] + [head] + StreamFrames(cs);
    }
    FinishAfterStream(t, [head] + StreamFrames(cs));
  }

  /** `finishWrite` on an open chunked request adds the last chunk to its stream. */
  lemma FinishAfterStream(t: Conn, sent: seq<Chunk>)
    requires Flushed(t) && !t.sentContentLength && !t.state.Closed? && Stream(t) == sent
    ensures FinishWriteStep(t).1 == Done
    ensures Stream(FinishWriteStep(t).0) == sent + [Text(LastChunk)]
  {
    FinishWriteCommits(t);
  }

  /** What follows the head of such a request decodes to exactly the
      octets of the non-empty writes, in order. */
  lemma StreamingBodyDecodes(cs: seq<Chunk>)
    ensures DecodeBody(Concat(StreamFrames(cs) + [Text(LastChunk)])) == Some(NonEmptyOctets(cs))
  {
    ConcatAppend(StreamFrames(cs), [Text(LastChunk)]);
    assert Concat([Text(LastChunk)]) == Concat([]) + OctetsOf(Text(LastChunk));
    CrLfOctets();
    StreamFramesDecode(cs);
  }

  // ---------------------------------------------------------------- the object

  /** The closure of `makeHttpRequest`: its mutable variables as fields, its
      inner functions, returned methods and event handlers as methods. */
  class Request {
    var lines: seq<string>
    var pendingWrites: seq<Chunk>
    var pendingEnd: bool
    var sentInit: bool
    var sentContentLength: bool
    var state: SocketState
    var calls: seq<SocketCall>
    var events: seq<HttpEvent>
    /** The host and port the socket connects to. */
    const endpoint: Endpoint

    function Snap(): Conn
      reads this
    {
      Conn(lines, pendingWrites, pendingEnd, sentInit, sentContentLength, state, calls, events)
    }

    /** The invariant of every request, kept by each of its operations. */
    ghost predicate Valid()
      reads this
    {
      Coherent(Snap())
    }

    /** `makeHttpRequest(options)`: the head's first two lines, then each
        option header through `writeHeader`. */
    constructor (verb: string, path: string, host: string, port: Option<nat>, secure: bool,
                 headers: Dict<string>)
      ensures Snap() == InitConn(verb, path, host, headers)
      ensures endpoint == Endpoint(host, ConnectPort(secure, port), secure)
      ensures Valid()
    {
      endpoint := Endpoint(host, ConnectPort(secure, port), secure);
      lines := [RequestLine(verb, path), HostLine(host)];
      pendingWrites := [];
      pendingEnd := false;
      sentInit := false;
      sentContentLength := false;
      state := Connecting;
      calls := [];
      events := [];
      new;
      for i := 0 to |headers|
        invariant Snap() == WriteHeaders(Fresh(verb, path, host), headers[..i])
        invariant Valid()
      {
        assert headers[..i + 1][..i] == headers[..i];
        var o := WriteHeader(headers[i].0, headers[i].1);
      }
      assert headers[..|headers|] == headers;
    }

    method WriteHeader(key: string, value: string) returns (o: Outcome)
      requires Valid()
      modifies this
      ensures (Snap(), o) == WriteHeaderStep(old(Snap()), key, value)
      ensures Valid()
    {
      ApplyCoherent(Snap(), WriteHeaderOp(key, value));
      if sentInit {
        return Failed(HeaderAfterInit);
      }
      if IsContentLength(key) {
        sentContentLength := true;
      }
      lines := lines + [HeaderLine(key, value)];
      return Done;
    }

    method WriteToSocket(buff: Chunk) returns (o: Outcome)
      modifies this
      ensures (Snap(), o) == WriteToSocketStep(old(Snap()), buff)
    {
      if state == Closed {
        return Failed(SocketClosed);
      }
      if state == Connected {
        calls := calls + [SocketCall.Write(buff)];
      } else {
        pendingWrites := pendingWrites + [buff];
      }
      return Done;
    }

    method Write(content: Chunk) returns (o: Outcome)
      requires Valid()
      modifies this
      ensures (Snap(), o) == WriteStep(old(Snap()), content)
      ensures Valid()
    {
      ApplyCoherent(Snap(), WriteOp(content));
      ghost var s0 := Snap();
      o := Done;
      if !sentContentLength {
        o := WriteHeader(TransferEncoding, ChunkedCoding);
      }
      assert (Snap(), o) == ChunkedHeaderStep(s0);
      if o.Failed? {
        return;
      }
      ghost var s1 := Snap();
      if !sentInit {
        o := WriteToSocket(Text(InitData(lines)));
        if o.Failed? {
          return;
        }
        sentInit := true;
      }
      assert (Snap(), o) == InitOnceStep(s1);
      ghost var s2 := Snap();
      if !sentContentLength {
        EmitAllThree(s2, Text(SizeLine(Length(content))), content, Text(CRLF));
        o := WriteToSocket(Text(SizeLine(Length(content))));
        if o.Failed? {
          return;
        }
      } else {
        EmitAllOne(s2, content);
      }
      o := WriteToSocket(content);
      if o.Failed? {
        return;
      }
      if !sentContentLength {
        o := WriteToSocket(Text(CRLF));
      }
    }

    method FinishWrite() returns (o: Outcome)
      requires Valid()
      modifies this
      ensures (Snap(), o) == FinishWriteStep(old(Snap()))
      ensures Valid()
    {
      ApplyCoherent(Snap(), FinishWriteOp);
      o := Done;
      if !sentContentLength {
        o := WriteToSocket(Text(LastChunk));
      }
    }

    method End()
      requires Valid()
      modifies this
      ensures Snap() == EndStep(old(Snap()))
      ensures Valid()
    {
      ApplyCoherent(Snap(), EndOp);
      if state == Connecting {
        pendingEnd := true;
      } else if state == Connected {
        calls := calls + [SocketCall.End];
      }
    }

    method Destroy()
      requires Valid()
      modifies this
      ensures Snap() == DestroyStep(old(Snap()))
      ensures Valid()
    {
      ApplyCoherent(Snap(), DestroyOp);
      calls := calls + [SocketCall.Destroy];
    }

    method HandleSocketEnd()
      modifies this
      ensures Snap() == SocketEndStep(old(Snap()))
    {
      state := Closed;
      events := events + [EndHttp];
      calls := calls + [SocketCall.End];
    }

    /** The socket's 'connect' event. */
    method OnConnect()
      requires Valid()
      modifies this
      ensures Snap() == ConnectStep(old(Snap()))
      ensures Valid()
    {
      ApplyCoherent(Snap(), ConnectOp);
      state := Connected;
      var i := 0;
      while i < |pendingWrites|
        invariant 0 <= i <= |pendingWrites|
        invariant calls == old(calls) + Writes(pendingWrites[..i])
        invariant Snap() == old(Snap()).(state := Connected, calls := calls)
      {
        assert Writes(pendingWrites[..i + 1]) == Writes(pendingWrites[..i]) + [SocketCall.Write(pendingWrites[i])];
        calls := calls + [SocketCall.Write(pendingWrites[i])];
        i := i + 1;
      }
      assert pendingWrites[..i] == pendingWrites;
      pendingWrites := [];
      if pendingEnd {
        state := Closed;
      }
    }

    /** The parser's `onMessageComplete`. */
    method OnMessageComplete()
      requires Valid()
      modifies this
      ensures Snap() == SocketEndStep(old(Snap()))
      ensures Valid()
    {
      ApplyCoherent(Snap(), MessageCompleteOp);
      HandleSocketEnd();
    }

    /** The socket's 'error' event: the writer's own listener, then the subscribers'. */
    method OnSocketError(err: string)
      requires Valid()
      modifies this
      ensures Snap() == ErrorStep(old(Snap()), err)
      ensures Valid()
    {
      ApplyCoherent(Snap(), ErrorOp(err));
      HandleSocketEnd();
      events := events + [SocketError(err)];
    }

    /** The parser's `onHeadersComplete`. */
    method OnHeadersComplete(status: int, raw: seq<string>) returns (o: Outcome)
      requires Valid()
      modifies this
      ensures (Snap(), o) == HeadersStep(old(Snap()), status, raw)
      ensures Valid()
    {
      ApplyCoherent(Snap(), HeadersOp(status, raw));
      var headers := ResponseHeaders(raw);
      if headers.None? {
        return Failed(MissingHeaderValue);
      }
      events := events + [Headers(status, headers.value)];
      return Done;
    }

    /** The parser's `onBody`. */
    method OnBody(chunk: seq<byte>, offset: nat, length: nat)
      requires Valid()
      modifies this
      ensures Snap() == BodyStep(old(Snap()), chunk, offset, length)
      ensures Valid()
    {
      ApplyCoherent(Snap(), BodyOp(chunk, offset, length));
      var slice := Subarray(chunk, offset, length);
      events := events + [Data(slice)];
    }

    /** The corrected `write`. */
    method WriteStreaming(content: Chunk) returns (o: Outcome)
      requires Valid()
      modifies this
      ensures (Snap(), o) == WriteStreamingStep(old(Snap()), content)
      ensures Valid()
    {
      StreamingCoherent(Snap(), content);
      ghost var s0 := Snap();
      o := Done;
      if !sentContentLength && !sentInit {
        o := WriteHeader(TransferEncoding, ChunkedCoding);
      }
      assert Snap() == StreamingHeaderStep(s0);
      ghost var s1 := Snap();
      o := Done;
      if !sentInit {
        o := WriteToSocket(Text(InitData(lines)));
        if o.Failed? {
          return;
        }
        sentInit := true;
      }
      assert (Snap(), o) == InitOnceStep(s1);
      ghost var s2 := Snap();
      if sentContentLength {
        EmitAllOne(s2, content);
        o := WriteToSocket(content);
      } else {
        var size := |OctetsOf(content)|;
        if size > 0 {
          EmitAllThree(s2, Text(SizeLine(size)), content, Text(CRLF));
          o := WriteToSocket(Text(SizeLine(size)));
          if o.Failed? {
            return;
          }
          o := WriteToSocket(content);
          o := WriteToSocket(Text(CRLF));
        }
      }
    }
  }
}
