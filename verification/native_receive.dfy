/**
 * The native body of `SteamNetworkingSocketsNative.receiveMessageOnConnection`:
 * ask the library for at most one message, then either copy it into the
 * caller's buffer and answer its size, or, when it does not fit, drop it and
 * answer minus its size. Either way the message is released.
 */
module NativeReceive {
  import opened JavaInt
  import opened Wrappers

  /** A message payload; its size is the library's `int m_cbSize`. */
  type Payload = p: seq<byte> | |p| <= MaxInt32

  /**
   * What `ReceiveMessagesOnConnection(conn, messages, 1)` left behind: its
   * return value (negative for a bad handle) and the first slot of the array.
   */
  datatype Fetch = Fetch(received: int32, first: Option<Payload>)

  /** The buffer after the call, the value returned to Java, and whether a message was released. */
  datatype BodyOutcome = BodyOutcome(buffer: seq<byte>, result: int32, released: bool)

  /** `[offset, offset + size)` lies inside the buffer, as the Java caller guarantees. */
  predicate ValidWindow(buf: seq<byte>, offset: int, size: int) {
    0 <= offset && 0 <= size && offset + size <= |buf|
  }

  /** `memcpy(&buf[offset], data, |data|)`: writes `data` there and nothing else. */
  function Memcpy(buf: seq<byte>, offset: nat, data: seq<byte>): (r: seq<byte>)
    requires offset + |data| <= |buf|
    ensures |r| == |buf|
    ensures r[offset..offset + |data|] == data
    ensures forall i :: 0 <= i < |buf| && !(offset <= i < offset + |data|) ==> r[i] == buf[i]
  {
    buf[..offset] + data + buf[offset + |data|..]
  }

  /** The JNI body, given what the library answered. */
  function Body(fetch: Fetch, buf: seq<byte>, offset: int32, size: int32): (out: BodyOutcome)
    requires ValidWindow(buf, offset, size)
    ensures |out.buffer| == |buf|
    // A message is taken, and then released, exactly when the library returned one.
    ensures out.released <==> fetch.received > 0 && fetch.first.Some?
    // No message (none queued, bad handle, or a null slot): 0 and nothing written.
    ensures !out.released ==> out.result == 0 && out.buffer == buf
    // Too large: minus its size, which is negative, and the buffer untouched.
    ensures out.released && |fetch.first.value| > size ==>
              out.result == -|fetch.first.value| && out.result < 0 && out.buffer == buf
    // Fits: its size, at most the window, with the payload at the offset.
    ensures out.released && |fetch.first.value| <= size ==>
              && out.result == |fetch.first.value|
              && out.buffer[offset..offset + out.result] == fetch.first.value
    // Only the bytes the payload lands on ever change.
    ensures forall i :: 0 <= i < |buf| && !(offset <= i < offset + out.result) ==> out.buffer[i] == buf[i]
    ensures out.result <= size
  {
    if fetch.received <= 0 || fetch.first.None? then
      BodyOutcome(buf, 0, false)
    else
      var message := fetch.first.value;
      if |message| > size then
        BodyOutcome(buf, -|message|, true)
      else
        BodyOutcome(Memcpy(buf, offset, message), |message|, true)
  }

  /**
   * The library's side of `ReceiveMessagesOnConnection` with room for one
   * message, on a live connection whose inbound queue is `queue`: it hands over
   * the oldest message, if any, and keeps the rest.
   */
  function TakeOne(queue: seq<Payload>): (r: (Fetch, seq<Payload>))
    ensures 0 <= r.0.received <= 1
    ensures r.0.received == |queue| - |r.1|
    ensures r.0.received == 1 ==> r.0.first == Some(queue[0]) && r.1 == queue[1..]
    ensures r.0.received == 0 ==> queue == [] && r.1 == []
  {
    if |queue| == 0 then (Fetch(0, None), queue) else (Fetch(1, Some(queue[0])), queue[1..])
  }

  /** The inbound queue and buffer after one receive, and the value returned to Java. */
  datatype Step = Step(queue: seq<Payload>, buffer: seq<byte>, result: int32)

  /** One native receive against a connection's inbound queue. */
  function ReceiveStep(queue: seq<Payload>, buf: seq<byte>, offset: int32, size: int32): (out: Step)
    requires ValidWindow(buf, offset, size)
    ensures |out.buffer| == |buf|
    // Empty queue: nothing taken, nothing written, 0.
    ensures queue == [] ==> out == Step(queue, buf, 0)
    // Otherwise exactly the oldest message is consumed, whether or not it fits.
    ensures queue != [] ==> out.queue == queue[1..]
    ensures queue != [] && |queue[0]| > size ==>
              out.result == -|queue[0]| && out.result < 0 && out.buffer == buf
    ensures queue != [] && |queue[0]| <= size ==>
              && out.result == |queue[0]|
              && out.buffer[offset..offset + out.result] == queue[0]
    ensures out.result <= size
    ensures forall i :: 0 <= i < |buf| && !(offset <= i < offset + out.result) ==> out.buffer[i] == buf[i]
  {
    var (fetch, rest) := TakeOne(queue);
    var body := Body(fetch, buf, offset, size);
    Step(rest, body.buffer, body.result)
  }

  /** A zero result means the queue was empty or its oldest message was empty. */
  lemma ZeroResultIff(queue: seq<Payload>, buf: seq<byte>, offset: int32, size: int32)
    requires ValidWindow(buf, offset, size)
    ensures ReceiveStep(queue, buf, offset, size).result == 0 <==> queue == [] || queue[0] == []
  {
  }

  /**
   * A zero-length message answers exactly as an empty queue does, with the
   * buffer untouched, yet it is consumed: the caller cannot see that it existed.
   */
  lemma EmptyMessageLooksLikeNoMessage(rest: seq<Payload>, buf: seq<byte>, offset: int32, size: int32)
    requires ValidWindow(buf, offset, size)
    ensures ReceiveStep([[]] + rest, buf, offset, size).result == ReceiveStep([], buf, offset, size).result
    ensures ReceiveStep([[]] + rest, buf, offset, size).buffer == buf
    ensures ReceiveStep([[]] + rest, buf, offset, size).queue == rest
  {
  }

  /**
   * Receiving drops the oldest message whether or not it fits: after `k`
   * receives on a queue of at least `k` messages, the first `k` are gone.
   */
  lemma {:induction false} RepeatedReceiveConsumes(queue: seq<Payload>, buf: seq<byte>, offset: int32, size: int32, k: nat)
    requires ValidWindow(buf, offset, size)
    requires k <= |queue|
    ensures Repeat(queue, buf, offset, size, k).queue == queue[k..]
    decreases k
  {
    if k > 0 {
      RepeatedReceiveConsumes(queue, buf, offset, size, k - 1);
      var before := Repeat(queue, buf, offset, size, k - 1);
      assert before.queue == queue[k - 1..];
      assert before.queue[1..] == queue[k..];
    }
  }

  /** `k` receives in a row, each with the same window. */
  function Repeat(queue: seq<Payload>, buf: seq<byte>, offset: int32, size: int32, k: nat): (out: Step)
    requires ValidWindow(buf, offset, size)
    ensures |out.buffer| == |buf|
    decreases k
  {
    if k == 0 then Step(queue, buf, 0)
    else
      var before := Repeat(queue, buf, offset, size, k - 1);
      ReceiveStep(before.queue, before.buffer, offset, size)
  }
}
