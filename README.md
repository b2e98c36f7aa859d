# A model of the raw-socket HTTP/1.1 transport

This project models the raw-socket transport of a gRPC-web client for
JavaScript runtimes that cannot stream request bodies. Three pieces are
modelled:

- **The HTTP/1.1 request writer** of `src/make-http-request.ts`. It builds the
  request head, frames the body with a `Content-Length` or in chunked
  transfer coding, and queues writes until the socket connects. It runs a
  three-state socket machine (connecting, connected, closed) and republishes
  the response parser's callbacks as events.
- **The socket transport** of `src/make-socket-based-transport.ts`. It
  implements `start`, `sendMessage`, `finishSend` and `cancel` on one such
  request, and forwards its events to the RPC's `onHeaders`, `onChunk` and
  `onEnd`.
- **The earlier writer and transport** of `src/index.ts`, as a separate module.

## How the model is built

- **Snapshots and step functions.** The writer's closure state and its
  effects form one snapshot, `HttpRequest.Conn`. Each operation is a step
  function from one snapshot to the next, together with an `Outcome`: it
  returned, or it threw. A throw keeps whatever the operation had already
  changed, as in JavaScript.
- **The socket and the subscribers.** The socket is the ordered log of calls
  made on it: write, end, destroy. The subscribers are the ordered log of
  events emitted to them.
- **The stream.** `Stream` is what the writer has committed to the connection:
  the chunks on the wire, then the chunks still queued.
- **The classes.** `HttpRequest.Request`, `SocketTransport.Transport`,
  `Legacy.Request` and `Legacy.Transport` hold the same state in fields. Each
  method is proved to take exactly the step its function describes.
  `HttpRequest.Request` and `SocketTransport.Transport` also carry the
  invariant `Valid`: the constructor establishes it and every operation keeps
  it, so the step lemmas apply to a live request without further checks. The
  inner `writeToSocket` and `handleSocketEnd` are not bound by it. The loops
  of the source are loops here: the constructor's header loop, the flush in
  `onConnect`, the pair loop of `onHeadersComplete`, the metadata `forEach`
  and the `for...in` of `filterHeadersForUndefined`.
- **Encodings.**
  - Strings reach the wire as UTF-8, and `content.length` counts UTF-16 code
    units (module `Octets`).
  - `toString(16)` and `toString(10)` are written out with a parser back
    (module `Radix`).
  - JavaScript objects are sequences of distinct keys in insertion order
    (module `JsObject`).
- **Decoding.** Module `Chunked` includes a decoder for the chunked coding of
  section 7.1 of RFC 9112. It is the independent partner against which the
  framing is proved.

## Behaviour worth knowing

These behaviours of the code are easy to miss. The model states each one as
the code has it.

- **Order on a socket error.** The writer registers its own `'error'`
  listener first, at `make-http-request.ts:96-99`. That listener runs
  `handleSocketEnd`, which emits end-http, before the transport's subscriber
  sees the error.
  - So an RPC sees `onEnd()` and then `onEnd(err)`: two terminal calls, with
    the end first (`SocketTransport.ErrorEndsTwice`). An RPC client usually
    expects one terminal `onEnd` per call.
  - The legacy writer has no listener of its own, so there the RPC sees one
    `onEnd(err)` (`Legacy.ErrorEndsOnce`).
- **Repeated response header names.** The code assigns each pair into an
  object, so the last value wins (`Headers.PairsLastWins`). Section 5.3 of
  RFC 9110 would combine repeated field lines into one comma-separated
  value; the code does not.
- **An unpaired header name.** A header list that ends in a name without a
  value makes the code throw a TypeError. That case is modelled as
  `Failed(MissingHeaderValue)`, with no event.
- **Port 0.** `port ? +port : defaultPort` treats port 0 like a missing port.
- **Several messages.** The transport's `sendMessage` can be called once per
  message of a streaming call. In chunked mode only the first call can
  succeed; see Findings.
- **Pending end on connect.** When an end is pending at connect, the state
  becomes closed right after the flush. `netSocket.end()` is never called
  (`HttpRequest.ConnectFlushes`).
- **A failed legacy connect.** Node clears `netSocket.connecting` before it
  emits `'error'`. Later legacy writes then go straight to `netSocket.write`,
  and the queued ones are never flushed (`Legacy.WriteAfterFailedConnect`).

## Model

| member | source | states |
|---|---|---|
| Radix.ToRadix | src/make-http-request.ts:150 | `n.toString(radix)`: at least one digit, all below the radix, no leading zero unless `n` is 0, one digit exactly when `n` is below the radix |
| Radix.ParseToRadix | src/make-http-request.ts:150 | reading back a printed size line gives the number that was printed |
| Radix.ToRadixInjective | src/make-socket-based-transport.ts:35-38 | different lengths print differently, so a Content-Length value names one length |
| Octets.Utf16Length | src/make-http-request.ts:150 | a string's JavaScript `length` is between its number of characters and twice that |
| Octets.EncodeChar | src/make-http-request.ts:177-187 | a character is written as 1 to 4 UTF-8 octets, exactly one when it is below U+0080 |
| Octets.AsciiOctets | src/make-http-request.ts:142 | an ASCII string (the head, size lines, CRLF) is written as its character codes, and its `length` is its octet count |
| Chunked.DecodeEncodeBody | src/make-http-request.ts:149-163 | a body of one chunk per non-empty piece of data, then the last chunk, decodes to exactly those pieces in order |
| Chunked.SizeLine | src/make-http-request.ts:150 | definition: the size in hexadecimal, then CRLF; read back in `Chunked.DecodeSizeLine` and `Radix.ParseToRadix` |
| Chunked.Frame | src/make-http-request.ts:149-156 | definition: the size line, the content, CRLF; properties in `Chunked.FrameOctets`, `Chunked.EmptyWriteIsLastChunk` and `Chunked.TextSizeMismatch` |
| Chunked.FrameOctets | src/make-http-request.ts:149-156 | the three writes of a chunked `write` of a byte array are exactly one chunk of it |
| Chunked.FrameThenLastChunk | src/make-http-request.ts:149-163 | a non-empty byte array written in chunked mode and then `finishWrite` decodes to that array |
| Chunked.EmptyWriteIsLastChunk | src/make-http-request.ts:149-156 | as written, a chunked write of zero bytes puts `0\r\n\r\n` on the wire, which decodes as a complete empty body |
| Chunked.TextSizeMismatch | src/make-http-request.ts:150 | as written, for `write("é")` the size line says 1 but two octets follow, and the body does not decode |
| Chunked.StreamFramesOctets | src/make-http-request.ts:149-163 | corrected framing: the frames of a series of writes, then the last chunk, are the chunked encoding of their non-empty octets |
| Chunked.StreamFramesDecode | src/make-http-request.ts:149-163 | corrected framing, for strings and byte arrays alike: the body decodes to the octets of the non-empty writes, in order |
| JsObject.GetSpec | src/make-http-request.ts:74-75 | a key is found exactly when an entry has it, and then with that entry's value |
| JsObject.Set | src/make-http-request.ts:74-75 | `obj[key] = value`: afterwards `key` maps to `value` and every other key is unchanged; a new key is appended at the end, an existing one keeps its place |
| JsObject.Join | src/make-socket-based-transport.ts:51 | definition: `values.join(sep)`, the empty string for no values; used by `SocketTransport.FlattenGet` |
| Headers.ToLowerAscii | src/make-http-request.ts:170 | `key.toLowerCase()` on ASCII: same length, every upper-case letter becomes its lower-case letter, every other character is kept, and no upper-case letter is left |
| Headers.IsContentLength | src/make-http-request.ts:170 | definition: `key.toLowerCase() === 'content-length'`; characterised in `Headers.ContentLengthAnyCase` |
| Headers.ContentLengthAnyCase | src/make-http-request.ts:170 | a key switches on content-length mode exactly when it spells "content-length" with each letter in either ASCII case and the hyphen as it is |
| Headers.ContentLengthKeys | src/make-http-request.ts:170 | `Content-Length`, `content-length` and `CONTENT-LENGTH` switch on content-length mode; neither spelling of Transfer-Encoding does |
| Headers.PairsHasKey | src/make-http-request.ts:71-76 | a response header is present exactly when some name of the parser's list carries it |
| Headers.PairsLastWins | src/make-http-request.ts:71-76 | a response header's value is that of the last pair with its name |
| Headers.ResponseHeaders | src/make-http-request.ts:71-76 | the pair loop builds the object defined by `Pairs`, or fails on a list of odd length |
| Headers.Subarray | src/make-http-request.ts:66-69 | `chunk.subarray(offset, offset + length)`: exactly the range when it lies within the chunk, clamped to the chunk otherwise, never longer than `length` |
| Headers.FilterDefined | src/make-socket-based-transport.ts:92-105 | a key of the result maps to a value exactly when it maps to a defined value in the input, and to that same value |
| Headers.FilterHeadersForUndefined | src/index.ts:227-240 | the `for...in` loop builds exactly `FilterDefined` of its input (the two transports share this code) |
| Headers.Lifted | src/make-socket-based-transport.ts:70-73 | the writer's string headers seen as possibly-undefined values: same keys, every value defined |
| Headers.FilterKeepsWriterHeaders | src/make-socket-based-transport.ts:70-73 | filtering the headers a writer emits drops nothing and changes no value |
| Events.ConnectPort | src/make-http-request.ts:31-43 | the connect port is never 0; the fallback to 443 or 80 for an absent or zero port is stated in `SocketTransport.EndpointOf` |
| Events.WrittenWrites | src/make-http-request.ts:193-195 | writing a series of chunks to the socket puts exactly those chunks on the wire, so `Writes` keeps their order |
| HttpRequest.WriteHeadersAppend | src/make-http-request.ts:62-64 | before the head is sent, each header is appended as `key: value` in order, and content-length mode is on exactly when some key is a content-length key |
| HttpRequest.InitData | src/make-http-request.ts:142 | definition: the head lines joined by CRLF, then an empty line; properties in `HttpRequest.FirstWrite` |
| HttpRequest.WriteHeaderStep | src/make-http-request.ts:165-175 | definition of `writeHeader`; properties in `HttpRequest.WriteHeadersAppend` and `HttpRequest.LaterWrite` |
| HttpRequest.WriteToSocketStep | src/make-http-request.ts:177-187 | definition of `writeToSocket`; properties in `HttpRequest.EmitAllCommits` and `HttpRequest.CommitStream` |
| HttpRequest.WriteStep | src/make-http-request.ts:136-157 | definition of `write`; properties in `HttpRequest.FirstWrite`, `HttpRequest.LaterWrite` and `HttpRequest.WriteEffect` |
| HttpRequest.FinishWriteStep | src/make-http-request.ts:159-163 | definition of `finishWrite`; properties in `HttpRequest.FinishWriteCommits` |
| HttpRequest.EndStep | src/make-http-request.ts:114-121 | definition of `end`; its growth and invariant in `HttpRequest.ApplyGrows` and `HttpRequest.ApplyCoherent` |
| HttpRequest.DestroyStep | src/make-http-request.ts:122-124 | definition of `destroy`; its growth in `HttpRequest.ApplyGrows` |
| HttpRequest.SocketEndStep | src/make-http-request.ts:130-134 | definition of `handleSocketEnd`; what the RPC sees in `SocketTransport.CompleteEndsOnce` |
| HttpRequest.ConnectStep | src/make-http-request.ts:189-201 | definition of `onConnect`; properties in `HttpRequest.ConnectFlushes` |
| HttpRequest.ErrorStep | src/make-http-request.ts:96-99 | definition of a socket error, the writer's own listener first; what the RPC sees in `SocketTransport.ErrorEndsTwice` |
| HttpRequest.HeadersStep | src/make-http-request.ts:71-84 | definition of `onHeadersComplete`; properties in `Headers.PairsLastWins` and `SocketTransport.HeadersReachRpc` |
| HttpRequest.BodyStep | src/make-http-request.ts:66-69 | definition of `onBody`; the slice is characterised in `Headers.Subarray` |
| HttpRequest.EmitAllKeepsEvents | src/make-http-request.ts:177-187 | `writeToSocket` never emits an event, whatever the socket state |
| HttpRequest.WriteKeepsEvents | src/make-http-request.ts:136-157 | `write` never emits an event, even when it throws |
| HttpRequest.InitHead | src/make-http-request.ts:32-64 | a new request's head is the request line, the Host line, then one line per option header in order; nothing is written, the socket is connecting, the invariant holds |
| HttpRequest.CommitStream | src/make-http-request.ts:177-187 | on an open socket, written or queued chunks land at the end of the stream in order |
| HttpRequest.EmitAllCommits | src/make-http-request.ts:177-187 | a series of `writeToSocket` calls throws exactly when the socket is closed and there is something to write; then nothing changes, otherwise every chunk is committed |
| HttpRequest.FirstWrite | src/make-http-request.ts:136-157 | the first write on an open socket sends the head once (with the Transfer-Encoding line in chunked mode), then the raw content or its chunk frame; state, pending end and events are unchanged |
| HttpRequest.LaterWrite | src/make-http-request.ts:136-168 | after the head is sent, a chunked write throws "Cannot write header after init" and changes nothing; a content-length write commits the raw content, or throws when the socket is closed |
| HttpRequest.WriteWhenClosed | src/make-http-request.ts:136-147 | a first write on a closed socket throws "Socket is closed" and keeps the Transfer-Encoding line it already pushed |
| HttpRequest.SecondChunkedWriteFails | src/make-http-request.ts:136-168 | as written, in chunked mode the first write succeeds and any second write throws "Cannot write header after init" |
| HttpRequest.FinishWriteCommits | src/make-http-request.ts:159-163 | `finishWrite` commits `0\r\n\r\n` in chunked mode (throwing exactly when closed) and does nothing in content-length mode |
| HttpRequest.ConnectFlushes | src/make-http-request.ts:189-201 | connect writes the queue to the wire in order and empties it; the state becomes closed exactly when an end was pending; only writes are added, no socket end |
| HttpRequest.ApplyGrows | src/make-http-request.ts:55-201 | every operation only appends to the head, the stream, the socket calls and the events; the head and framing mode freeze once the head is sent, and content-length mode is never cleared |
| HttpRequest.ApplyCoherent | src/make-http-request.ts:55-201 | every operation keeps the invariant: nothing queued once connected, no pending end while connected, and a head marked as sent is on the connection |
| HttpRequest.StreamingCoherent | src/make-http-request.ts:136-157 | the corrected write keeps the same invariant |
| HttpRequest.RunGrows | src/make-http-request.ts:55-201 | over any sequence of operations the invariant holds and everything grows |
| HttpRequest.ChunkedStaysBroken | src/make-http-request.ts:136-175 | once a chunked head is sent, a write fails after any sequence of operations whatever |
| HttpRequest.FirstStreamingWrite | src/make-http-request.ts:136-157 | corrected write: the first one sends the head with its Transfer-Encoding line, then the frame of its content |
| HttpRequest.LaterStreamingWrite | src/make-http-request.ts:136-157 | corrected write: a later one commits the frame of its content and leaves the head alone |
| HttpRequest.WriteStreamingStep | src/make-http-request.ts:136-157 | definition of the corrected write; properties in `HttpRequest.FirstStreamingWrite`, `HttpRequest.LaterStreamingWrite` and `HttpRequest.StreamingWrites` |
| HttpRequest.StreamingWrites | src/make-http-request.ts:136-157 | corrected write: every one of a series succeeds, giving the head and then one frame per write, in order |
| HttpRequest.StreamingRequest | src/make-http-request.ts:136-163 | corrected write: a fresh request's stream after the writes and `finishWrite` is the head, the frames, then the last chunk |
| HttpRequest.StreamingBodyDecodes | src/make-http-request.ts:149-163 | corrected write: whatever follows that head decodes to the octets of the non-empty writes, in order |
| HttpRequest.Request.constructor | src/make-http-request.ts:31-64 | the new request is `InitConn` of its options, and connects to the host and the derived port, TLS when secure; the invariant `Valid` holds; every method except the inner `writeToSocket` and `handleSocketEnd` keeps it |
| HttpRequest.Request.WriteHeader | src/make-http-request.ts:165-175 | throws after the head is sent; otherwise appends `key: value` and switches content-length mode on for a content-length key |
| HttpRequest.Request.WriteToSocket | src/make-http-request.ts:177-187 | throws when closed, writes when connected, queues when connecting; nothing else changes |
| HttpRequest.Request.Write | src/make-http-request.ts:136-157 | takes the step `WriteStep`, whose properties are the lemmas above |
| HttpRequest.Request.FinishWrite | src/make-http-request.ts:159-163 | takes the step `FinishWriteStep` |
| HttpRequest.Request.End | src/make-http-request.ts:114-121 | records a pending end while connecting, ends the socket while connected, does nothing when closed |
| HttpRequest.Request.Destroy | src/make-http-request.ts:122-124 | destroys the socket |
| HttpRequest.Request.HandleSocketEnd | src/make-http-request.ts:130-134 | the state becomes closed, end-http is emitted and the socket is ended |
| HttpRequest.Request.OnConnect | src/make-http-request.ts:189-201 | the index loop writes the queue in order, then empties it, then applies a pending end |
| HttpRequest.Request.OnMessageComplete | src/make-http-request.ts:86-89 | a complete response goes through `handleSocketEnd` |
| HttpRequest.Request.OnSocketError | src/make-http-request.ts:96-99 | a socket error goes through `handleSocketEnd`, then reaches the subscriber |
| HttpRequest.Request.OnHeadersComplete | src/make-http-request.ts:71-84 | emits the status and the headers built from the pair list, or throws for an unpaired name |
| HttpRequest.Request.OnBody | src/make-http-request.ts:66-69 | emits the body slice |
| HttpRequest.Request.WriteStreaming | src/make-http-request.ts:136-157 | the corrected write, taking the step `WriteStreamingStep` |
| SocketTransport.Flatten | src/make-socket-based-transport.ts:49-52 | one header per metadata key, in order, its values joined by ", " |
| SocketTransport.FlattenGet | src/make-socket-based-transport.ts:49-52 | a key's header is its values joined by ", ", and a key the metadata lacks has no header |
| SocketTransport.FlattenMetadata | src/make-socket-based-transport.ts:49-52 | the `forEach` loop builds exactly `Flatten` of the metadata |
| SocketTransport.Forward | src/make-socket-based-transport.ts:65-83 | one RPC callback per request event |
| SocketTransport.ForwardEvent | src/make-socket-based-transport.ts:65-83 | definition: headers to `onHeaders` after filtering, data to `onChunk`, end-http to `onEnd()`, an error to `onEnd(err)` |
| SocketTransport.ForwardAppend | src/make-socket-based-transport.ts:65-83 | forwarding keeps order: the callbacks for later events follow those for earlier ones |
| SocketTransport.IsSecure | src/make-socket-based-transport.ts:60 | definition: TLS exactly for the `https:` protocol; used in `SocketTransport.EndpointOf` |
| SocketTransport.IsUnary | src/make-socket-based-transport.ts:26-29 | definition: neither side streams; properties in `SocketTransport.UnaryMessage` |
| SocketTransport.SendStep | src/make-socket-based-transport.ts:25-42 | definition of `sendMessage` on a started transport; properties in `SocketTransport.UnaryMessage` and `SocketTransport.StreamingSecondMessageFails` |
| SocketTransport.FinishSendStep | src/make-socket-based-transport.ts:43-47 | definition of `finishSend`; properties in `SocketTransport.UnaryBeforeConnect` and `SocketTransport.StreamingOneMessage` |
| SocketTransport.Transport.constructor | src/make-socket-based-transport.ts:7-12 | a new transport has no request |
| SocketTransport.Transport.Start | src/make-socket-based-transport.ts:48-63 | opens one fresh POST request to the URL's host and path, with the flattened metadata as its headers; the RPC has received nothing yet and the invariant holds |
| SocketTransport.Transport.SendMessage | src/make-socket-based-transport.ts:25-42 | the Content-Length header and then the write for a unary call, the write alone otherwise; throws before `start`; calls no RPC callback and keeps the invariant |
| SocketTransport.Transport.FinishSend | src/make-socket-based-transport.ts:43-47 | `finishWrite` strictly before `end`, and no `end` when `finishWrite` throws; throws before `start`; calls no RPC callback and keeps the invariant |
| SocketTransport.Transport.Cancel | src/make-socket-based-transport.ts:85-88 | destroys the request after `start`, does nothing before; calls no RPC callback |
| SocketTransport.EndpointOf | src/make-socket-based-transport.ts:54-60 | TLS exactly for `https:`; the URL's port when non-zero, otherwise 443 or 80 |
| SocketTransport.UnaryMessage | src/make-socket-based-transport.ts:25-42 | a unary message goes out with a Content-Length equal to its byte length, head then raw bytes, and `finishWrite` adds nothing |
| SocketTransport.UnaryBeforeConnect | src/make-socket-based-transport.ts:25-47 | a unary call made before connect writes head and payload in order on connect, then closes with no socket end |
| SocketTransport.StreamingSecondMessageFails | src/make-socket-based-transport.ts:25-42 | as written, the second message of a streaming call throws "Cannot write header after init" |
| SocketTransport.StreamingOneMessage | src/make-socket-based-transport.ts:25-47 | a streaming call with one message sends head, one chunk and the last chunk, and the body decodes to the message |
| SocketTransport.ErrorEndsTwice | src/make-socket-based-transport.ts:65-68 | a socket error gives the RPC `onEnd()` and then `onEnd(err)` |
| SocketTransport.HeadersReachRpc | src/make-socket-based-transport.ts:70-73 | the RPC receives the status and every response header with its value, nothing dropped |
| SocketTransport.CompleteEndsOnce | src/make-socket-based-transport.ts:80-83 | a complete response gives the RPC exactly one `onEnd()` |
| Legacy.CommitStream | src/index.ts:210-216 | written or queued chunks land at the end of the stream in order, and writing never throws |
| Legacy.WriteHeadersAppend | src/index.ts:101-103 | each option header is appended as `key: value` in order; content-length mode exactly when some key is a content-length key |
| Legacy.InitEvents | src/index.ts:79-111 | a new legacy request has emitted nothing and called nothing on its socket |
| Legacy.WriteHeaderStep | src/index.ts:200-208 | definition of the legacy `writeHeader`; properties in `Legacy.WriteHeadersAppend` |
| Legacy.WriteHeaders | src/index.ts:101-103 | definition of the header loop; properties in `Legacy.WriteHeadersAppend` |
| Legacy.Commit | src/index.ts:210-216 | definition of `writeToSocket` for a series of chunks; properties in `Legacy.CommitStream` |
| Legacy.Body | src/index.ts:190-197 | definition: the raw content, or the size line, the content and the terminator `\r\n0\r\n\r\n`; properties in `Legacy.ChunkedWriteIsWholeBody` |
| Legacy.WriteStep | src/index.ts:176-198 | definition of the legacy `write`; properties in `Legacy.FirstWrite`, `Legacy.LaterWrite` and `Legacy.WriteFailsOnlyAfterInit` |
| Legacy.ConnectStep | src/index.ts:218-224 | definition of the legacy `onConnect`; properties in `Legacy.ConnectFlushes` |
| Legacy.EndStep | src/index.ts:166-168 | definition: `netSocket.end()` at once; properties in `Legacy.UnaryEndsBeforeWrites` |
| Legacy.DestroyStep | src/index.ts:169-171 | definition: `netSocket.destroy()` |
| Legacy.MessageCompleteStep | src/index.ts:139-144 | definition: end-http only; properties in `Legacy.CompleteEndsOnce` |
| Legacy.ErrorStep | src/index.ts:154-156 | definition: the error reaches the subscriber, and the socket no longer counts as connecting; properties in `Legacy.ErrorEndsOnce` |
| Legacy.HeadersStep | src/index.ts:122-137 | definition of the legacy `onHeadersComplete`, through `Headers.HeaderPairs` |
| Legacy.BodyStep | src/index.ts:113-120 | definition of the legacy `onBody`, through `Headers.Subarray` |
| Legacy.WriteFailsOnlyAfterInit | src/index.ts:176-216 | a legacy write throws exactly when it is chunked and the head was sent, never because of the socket, and then changes nothing |
| Legacy.FirstWrite | src/index.ts:176-198 | the first write sends the head once, then the raw content, or the size line, the content and `\r\n0\r\n\r\n` |
| Legacy.LaterWrite | src/index.ts:176-208 | later chunked writes throw "Cannot write header after init"; content-length writes commit the raw content |
| Legacy.SecondChunkedWriteFails | src/index.ts:176-203 | as written, a second chunked write fails here too |
| Legacy.ChunkedWriteIsWholeBody | src/index.ts:190-197 | a chunked legacy write of a non-empty array is a complete chunked body holding exactly that array |
| Legacy.ConnectFlushes | src/index.ts:218-224 | connect writes the queue in order and empties it |
| Legacy.Request.constructor | src/index.ts:79-111 | the new request is `InitConn` of its options, with the socket connecting |
| Legacy.Request.WriteHeader | src/index.ts:200-208 | throws after the head is sent; otherwise appends `key: value` and switches content-length mode on for a content-length key |
| Legacy.Request.WriteToSocket | src/index.ts:210-216 | queues while connecting, writes otherwise |
| Legacy.Request.Write | src/index.ts:176-198 | takes the step `Legacy.WriteStep` |
| Legacy.Request.End | src/index.ts:166-168 | ends the socket at once, connecting or not |
| Legacy.Request.Destroy | src/index.ts:169-171 | destroys the socket |
| Legacy.Request.OnConnect | src/index.ts:218-224 | the `for...of` loop writes the queue in order, then empties it |
| Legacy.Request.OnMessageComplete | src/index.ts:139-144 | emits end-http and leaves the socket alone |
| Legacy.Request.OnSocketError | src/index.ts:154-156 | the error reaches the subscriber only |
| Legacy.Request.OnHeadersComplete | src/index.ts:122-137 | emits the status and the headers built from the pair list, or throws for an unpaired name |
| Legacy.Request.OnBody | src/index.ts:113-120 | emits the body slice |
| Legacy.Transport.constructor | src/index.ts:12-13 | a new transport has no request |
| Legacy.Transport.Start | src/index.ts:27-42 | opens one fresh POST request with the flattened metadata, to the URL's host, path and derived port; the RPC has received nothing yet |
| Legacy.Transport.SendMessage | src/index.ts:16-23 | Content-Length for a unary call, then the write, then `end()`, stopping at the first throw; throws before `start`; calls no RPC callback |
| Legacy.SendStep | src/index.ts:16-23 | definition of the legacy `sendMessage`; properties in `Legacy.UnaryEndsBeforeWrites` |
| Legacy.Transport.FinishSend | src/index.ts:24-26 | does nothing: the request and what the RPC has received are unchanged |
| Legacy.Transport.Cancel | src/index.ts:64-67 | destroys the request after `start`, does nothing before; calls no RPC callback |
| Legacy.UnaryEndsBeforeWrites | src/index.ts:16-23 | a unary call made while connecting ends the socket before anything is written: the call log is the end, then the head and payload on connect |
| Legacy.ErrorEndsOnce | src/index.ts:44-47 | a socket error gives the RPC one `onEnd(err)`, leaves the socket calls and the queue alone, and the socket no longer counts as connecting |
| Legacy.WriteAfterFailedConnect | src/index.ts:210-216 | after a failed connect, later writes go straight to the socket and the queue stays unflushed |
| Legacy.CompleteEndsOnce | src/index.ts:59-62 | a complete response gives the RPC one `onEnd()` and leaves the socket alone |

## Findings

| source | as written | input that shows it | evidently intended | confidence | as-written member | corrected member |
|---|---|---|---|---|---|---|
| src/make-http-request.ts:137-139 | in chunked mode every `write` calls `writeHeader('Transfer-Encoding', 'chunked')`, which throws once the head is sent (lines 166-168) | a streaming RPC calling `sendMessage` twice: the second call throws "Cannot write header after init" | the Transfer-Encoding line is added only while the head is unsent, so every message of a stream is sent as a chunk | high, not executed | HttpRequest.SecondChunkedWriteFails | HttpRequest.StreamingWrites |
| src/make-http-request.ts:150 | the chunk size is `content.length`, which counts UTF-16 code units for a string, while the socket writes its UTF-8 octets | `write("é")` in chunked mode: size line `1`, two octets of data, so the body does not decode | the size counts the octets the write puts on the wire | medium, not executed; the transports only write byte arrays | Chunked.TextSizeMismatch | Chunked.StreamFramesDecode |
| src/make-http-request.ts:149-156 | a chunked write of zero bytes emits `0\r\n`, the data and `\r\n`, which together are the last chunk | `write(new Uint8Array(0))` in chunked mode: the receiver sees a complete empty body | an empty write emits no chunk | low, not executed; gRPC-web frames are never empty | Chunked.EmptyWriteIsLastChunk | Chunked.StreamFramesDecode |

The corrected framing is `Chunked.StreamFrame`. The corrected write is
`HttpRequest.WriteStreamingStep`, performed by `HttpRequest.Request.WriteStreaming`.
`HttpRequest.StreamingBodyDecodes` proves that a corrected streaming request's
body decodes to its messages.

The first finding applies to the legacy writer too, at `src/index.ts:177-179`
and `src/index.ts:201-203` (`Legacy.SecondChunkedWriteFails`). There, each
chunked write also ends the body with `\r\n0\r\n\r\n` (lines 195-197), so one
chunked write is already a whole body (`Legacy.ChunkedWriteIsWholeBody`).

## Left out

- The response parser (`http-parser-js`) is not part of this model. Its
  callbacks are inputs: the status, the flat header list and the body slices
  arrive as arguments. Feeding it socket `'data'` is left out.
- `URL.parse` is not part of this model. The transport takes the parsed
  protocol, host name, port and path as a record. The port is `None` when
  the URL has none or its text is not a number: `+port` and `parseInt` give
  `NaN` there, which is falsy.
- TLS, the socket timeout, `noDelay` and `keepAlive` are left out. Only the
  secure flag and the endpoint are recorded.
- Logging is left out: the pino logger and its level change, the legacy `log`
  option and `console.log`.
- `generateRequestId` is left out: it uses `Math.random`.
- `src/make-fetch-based-transport.ts`, `src/common-transport.ts`,
  `src/utils.ts` and `src/types.ts` are not part of this model. They are
  fetch and stream I/O, runtime detection, and type declarations.
- `grpc.Metadata` is left out. Metadata is an ordered map from key to values,
  and the RPC receives the filtered headers as a map.
- Event-emitter mechanics are left out. Each request records its events in
  order. The subscribers `start` registers are a function from events to RPC
  callbacks (`SocketTransport.Forward`). The callbacks themselves are outside
  the core.
- Node's reaction to a write after `end()` or `destroy()` is left out: the
  model records the call, Node would raise an error. The same holds for the
  legacy writes that follow a failed connect (`Legacy.WriteAfterFailedConnect`).
  It also matters for the legacy unary call made while connecting, whose
  writes come after its end (`Legacy.UnaryEndsBeforeWrites`).
- A second socket end event is not modelled specially. As in the code,
  `handleSocketEnd` runs again and emits end-http again.
- JsObject.Set: keeps plain insertion order. A JavaScript object enumerates
  integer-like keys first, in numeric order. This matters for header names
  such as `"1"` and for nothing else here.
- `${headers[key]}` as a string conversion is left out: the option headers
  are already strings.
- Strings are sequences of Unicode scalar values, so a JavaScript string
  holding a lone surrogate cannot be expressed. Node writes such a code unit
  as the three octets EF BF BD, one unit of `length` for three octets. This
  would reach the head text and the size line of a string write; the
  transports write only byte arrays.
- Headers.ToLowerAscii: folds ASCII letters only. JavaScript's
  `toLowerCase` folds every Unicode letter, and can change the length
  (`"İ".toLowerCase()` has two code units). No character outside ASCII
  lower-cases to a letter of "content-length", so `Headers.IsContentLength`
  decides as JavaScript does.
