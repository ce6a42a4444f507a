/**
 * The Java-side checks of `SteamNetworkingSockets.sendMessageToConnection` and
 * `SteamNetworkingSockets.receiveMessageOnConnection`, around the native calls.
 */
module NetworkingSockets {
  import opened JavaInt
  import opened Wrappers
  import opened Handles
  import opened NativeReceive

  /**
   * A `java.nio.ByteBuffer`: whether it is direct, its backing bytes, and its
   * position and limit.
   */
  datatype ByteBuffer = ByteBuffer(isDirect: bool, contents: seq<byte>, position: nat, limit: nat)

  /** The `ByteBuffer` invariant `0 <= position <= limit <= capacity`, with an `int` capacity. */
  predicate Valid(b: ByteBuffer) {
    b.position <= b.limit <= |b.contents| <= MaxInt32
  }

  /** `remaining()`. */
  function Remaining(b: ByteBuffer): (n: int32)
    requires Valid(b)
    ensures ValidWindow(b.contents, b.position, n)
    ensures b.position + n == b.limit
  {
    b.limit - b.position
  }

  /** The `SteamException`s the two methods throw. */
  datatype SteamException =
    | DirectBufferRequired
      /** "Buffer Overflow, bytes received: ... bytes remaining: ..." */
    | BufferOverflow(bytesReceived: int32, bytesRemaining: int32)

  /** The arguments `sendMessageToConnection` hands to the native library. */
  datatype SendCall = SendCall(handle: int32, data: seq<byte>, offset: int32, size: int32, sendFlags: bv32)

  /** The native side reads `size` bytes of `data` from `offset`: exactly `payload`. */
  predicate Presents(call: SendCall, payload: seq<byte>) {
    ValidWindow(call.data, call.offset, call.size) && call.data[call.offset..call.offset + call.size] == payload
  }

  /**
   * `sendMessageToConnection` up to the native call: refuse a heap buffer,
   * otherwise pass the handle, the buffer, its position and remaining size, and
   * the flags on unchanged.
   */
  function SendMessageToConnection(connection: Connection, data: ByteBuffer, sendFlags: bv32): (r: Result<SendCall, SteamException>)
    requires Valid(data)
    ensures !data.isDirect <==> r == Failure(DirectBufferRequired)
    // A direct buffer always reaches the library, from its position for `remaining()` bytes.
    ensures data.isDirect ==> r.Success? && r.value.offset == data.position && r.value.size == Remaining(data)
    ensures r.Success? ==> r.value.handle == connection.handle && r.value.sendFlags == sendFlags
    // The library is shown exactly the bytes between position and limit.
    ensures r.Success? ==> Presents(r.value, data.contents[data.position..data.limit])
  {
    if !data.isDirect then Failure(DirectBufferRequired)
    else Success(SendCall(connection.handle, data.contents, data.position, Remaining(data), sendFlags))
  }

  /** Lines after the native call: a negative count becomes an exception carrying the required size. */
  function CheckBytesWritten(bytesWritten: int32, remaining: int32): (r: Result<int32, SteamException>)
    ensures r.Success? <==> bytesWritten >= 0
    ensures r.Success? ==> r.value == bytesWritten
    ensures r.Failure? ==> r.error == BufferOverflow(Negate(bytesWritten), remaining)
    // The native side never answers the one value whose negation wraps.
    ensures r.Failure? && bytesWritten > MinInt32 ==> r.error.bytesReceived == -bytesWritten > 0
  {
    if bytesWritten < 0 then Failure(BufferOverflow(Negate(bytesWritten), remaining)) else Success(bytesWritten)
  }

  /** The connection's inbound queue and the buffer after a receive, and what Java saw. */
  datatype Received = Received(inbound: seq<Payload>, data: ByteBuffer, result: Result<int32, SteamException>)

  /**
   * `receiveMessageOnConnection` for a connection whose inbound queue, held by
   * the library, is `inbound`.
   */
  function ReceiveMessageOnConnection(data: ByteBuffer, inbound: seq<Payload>): (out: Received)
    requires Valid(data)
    ensures Valid(out.data)
    // The buffer keeps its kind, position and limit: the position is never advanced.
    ensures out.data.isDirect == data.isDirect && out.data.position == data.position
    ensures out.data.limit == data.limit && |out.data.contents| == |data.contents|
    // A heap buffer is refused before the library is asked for anything.
    ensures !data.isDirect ==> out == Received(inbound, data, Failure(DirectBufferRequired))
    // Nothing queued: 0, nothing consumed, nothing written.
    ensures data.isDirect && inbound == [] ==> out == Received(inbound, data, Success(0))
    // The oldest message is consumed whether or not it fits.
    ensures data.isDirect && inbound != [] ==> out.inbound == inbound[1..]
    ensures data.isDirect && inbound != [] && |inbound[0]| > Remaining(data) ==>
              && out.result == Failure(BufferOverflow(|inbound[0]|, Remaining(data)))
              && out.data == data
    ensures data.isDirect && inbound != [] && |inbound[0]| <= Remaining(data) ==>
              && out.result == Success(|inbound[0]|)
              && out.data.contents[data.position..data.position + |inbound[0]|] == inbound[0]
    // Only the bytes the message lands on change, not the unused tail of the window.
    ensures data.isDirect && inbound != [] && |inbound[0]| <= Remaining(data) ==>
              forall i :: 0 <= i < |data.contents| && !(data.position <= i < data.position + |inbound[0]|) ==>
                out.data.contents[i] == data.contents[i]
    ensures forall i :: 0 <= i < |data.contents| && !(data.position <= i < data.limit) ==>
              out.data.contents[i] == data.contents[i]
  {
    if !data.isDirect then
      Received(inbound, data, Failure(DirectBufferRequired))
    else
      var step := ReceiveStep(inbound, data.contents, data.position, Remaining(data));
      Received(step.queue, data.(contents := step.buffer), CheckBytesWritten(step.result, Remaining(data)))
  }

  /** A successful receive never reports more bytes than the buffer had room for. */
  lemma ReceiveWithinRemaining(data: ByteBuffer, inbound: seq<Payload>)
    requires Valid(data)
    ensures var out := ReceiveMessageOnConnection(data, inbound);
            out.result.Success? ==> 0 <= out.result.value <= Remaining(data)
  {
  }

  /**
   * An overflow exception is thrown exactly when the oldest message does not
   * fit, and then the size it reports exceeds what remained.
   */
  lemma OverflowIff(data: ByteBuffer, inbound: seq<Payload>)
    requires Valid(data) && data.isDirect
    ensures var out := ReceiveMessageOnConnection(data, inbound);
            out.result.Failure? <==> inbound != [] && |inbound[0]| > Remaining(data)
    ensures var out := ReceiveMessageOnConnection(data, inbound);
            out.result.Failure? ==> out.result.error.bytesReceived > out.result.error.bytesRemaining
  {
  }

  /**
   * Where the draining loop below stops: at the end of the queue, or right
   * after consuming an empty or oversized message, having delivered every
   * message before it.
   */
  predicate DrainStop(inbound: seq<Payload>, cap: int, delivered: seq<Payload>, rest: seq<Payload>, failure: Option<SteamException>) {
    && |delivered| <= |inbound| && delivered == inbound[..|delivered|]
    && (forall m :: m in delivered ==> 0 < |m| <= cap)
    && (|delivered| == |inbound| ==> rest == [] && failure.None?)
    && (|delivered| < |inbound| ==>
          && rest == inbound[|delivered| + 1..]
          && (|inbound[|delivered|]| == 0 || |inbound[|delivered|]| > cap))
    && (failure.Some? <==> |delivered| < |inbound| && |inbound[|delivered|]| > cap)
  }

  /** Stopping there delivers the whole queue exactly when every message is non-empty and fits. */
  lemma DrainStopDeliversAllIff(inbound: seq<Payload>, cap: int, delivered: seq<Payload>, rest: seq<Payload>, failure: Option<SteamException>)
    requires DrainStop(inbound, cap, delivered, rest, failure)
    ensures delivered == inbound <==> forall m :: m in inbound ==> 0 < |m| <= cap
  {
    if |delivered| < |inbound| {
      assert inbound[|delivered|] in inbound;
    }
  }

  /**
   * The draining idiom the documentation recommends: receive into `data` until
   * the call answers 0, stopping early if it throws. Returns the messages
   * delivered, the queue left behind and the exception, if any.
   */
  method DrainUntilZero(data: ByteBuffer, inbound: seq<Payload>)
    returns (delivered: seq<Payload>, rest: seq<Payload>, failure: Option<SteamException>)
    requires Valid(data) && data.isDirect
    ensures DrainStop(inbound, Remaining(data), delivered, rest, failure)
    ensures failure.Some? ==> failure.value == BufferOverflow(|inbound[|delivered|]|, Remaining(data))
    // So the idiom delivers every message exactly when all are non-empty and fit.
    ensures delivered == inbound <==> forall m :: m in inbound ==> 0 < |m| <= Remaining(data)
  {
    var q := inbound;
    var buf := data;
    var cap := Remaining(data);
    delivered := [];
    while true
      invariant Valid(buf) && buf.isDirect && buf.position == data.position && buf.limit == data.limit
      invariant Remaining(buf) == cap
      invariant delivered + q == inbound
      invariant forall m :: m in delivered ==> 0 < |m| <= cap
      decreases |q|
    {
      var out := ReceiveMessageOnConnection(buf, q);
      if out.result.Failure? {
        assert q != [] && |q[0]| > cap && out.inbound == q[1..];
        failure := Some(out.result.error);
        rest := out.inbound;
        break;
      }
      if out.result.value == 0 {
        assert q == [] || |q[0]| == 0;
        assert out.inbound == if q == [] then [] else q[1..];
        failure := None;
        rest := out.inbound;
        break;
      }
      assert q != [] && 0 < |q[0]| <= cap && out.inbound == q[1..];
      delivered := delivered + [q[0]];
      q := out.inbound;
      buf := out.data;
    }
    assert inbound[..|delivered|] == delivered;
    assert |delivered| < |inbound| ==> inbound[|delivered|..] == q;
    DrainStopDeliversAllIff(inbound, cap, delivered, rest, failure);
  }
}
