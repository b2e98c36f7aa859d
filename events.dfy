/** What the writers do to their socket and what they emit to their
    subscribers, shared by the current writer and the legacy one. */
module Events {
  import opened Maybe
  import opened Octets
  import opened JsObject

  /** `'connecting' | 'connected' | 'closed'`. */
  datatype SocketState = Connecting | Connected | Closed

  /** Why an operation threw. */
  datatype Failure =
    | HeaderAfterInit      // "Cannot write header after init"
    | SocketClosed         // "Socket is closed"
    | NotStarted           // a transport method used `request!` before `start`
    | MissingHeaderValue   // `info.headers[i + 1]` was undefined

  /** The end of an operation: it returned, or it threw and left whatever it
      had already changed in place. */
  datatype Outcome = Done | Failed(failure: Failure)

  /** One call on the underlying socket, in the order the writer makes them. */
  datatype SocketCall = Write(chunk: Chunk) | End | Destroy

  /** One event the request emits to its subscribers, in emission order. */
  datatype HttpEvent =
    | Headers(status: int, headers: Dict<string>)   // 'headers'
    | Data(body: seq<byte>)                         // 'data-http'
    | EndHttp                                       // 'end-http'
    | SocketError(err: string)                      // 'error', reaching the subscriber

  /** Where the socket connects. */
  datatype Endpoint = Endpoint(host: string, port: nat, secure: bool)

  function DefaultPort(secure: bool): nat {
    if secure then 443 else 80
  }

  /** `port ? +port : defaultPort`: an absent port and port 0 both fall back. */
  function ConnectPort(secure: bool, port: Option<nat>): (p: nat)
    ensures p != 0
  {
    if port.Some? && port.value != 0 then port.value else DefaultPort(secure)
  }

  /** `netSocket.write(c)` for each chunk, in order. */
  function Writes(cs: seq<Chunk>): (r: seq<SocketCall>)
    ensures |r| == |cs|
  {
    seq(|cs|, i requires 0 <= i < |cs| => Write(cs[i]))
  }

  /** The chunks handed to `netSocket.write`, in order: what goes on the wire. */
  function Written(calls: seq<SocketCall>): seq<Chunk> {
    if calls == [] then []
    else
      var last := calls[|calls| - 1];
      Written(calls[..|calls| - 1]) + if last.Write? then [last.chunk] else []
  }

  lemma {:induction false} WrittenAppend(a: seq<SocketCall>, b: seq<SocketCall>)
    ensures Written(a + b) == Written(a) + Written(b)
    decreases |b|
  {
    if b == [] {
      assert a + b == a;
    } else {
      assert (a + b)[..|a + b| - 1] == a + b[..|b| - 1];
      WrittenAppend(a, b[..|b| - 1]);
    }
  }

  /** Writing a series of chunks puts exactly those chunks on the wire. */
  lemma {:induction false} WrittenWrites(cs: seq<Chunk>)
    ensures Written(Writes(cs)) == cs
  {
    if cs != [] {
      var n := |cs| - 1;
      assert Writes(cs)[..n] == Writes(cs[..n]);
      WrittenWrites(cs[..n]);
      assert cs == cs[..n] + [cs[n]];
    }
  }

  /** Ending or destroying the socket puts nothing on the wire. */
  lemma WrittenControl(a: seq<SocketCall>, c: SocketCall)
    requires !c.Write?
    ensures Written(a + [c]) == Written(a)
  {
    assert (a + [c])[..|a|] == a;
  }
}
