# Steamworks networking-sockets binding, modelled in Dafny

This project models the logic that the Java binding for Steam's
networking-sockets API adds on top of the native library:

- the two handle value classes, `Connection` and `Socket`: validity, `equals`, `hashCode` and `toString`;
- the `ConnectionState` enum and its integer encoding (`getValue` / `byValue`);
- the `SendFlags` bit constants;
- the Java-side guards of `sendMessageToConnection` and `receiveMessageOnConnection`;
- the JNI body of the native `receiveMessageOnConnection`. It takes at most one message from the connection's inbound queue. It answers 0 when there is none, or minus the message's size when the buffer is too small, in which case the message is dropped. Otherwise it copies the message and answers its size.

Everything else in these classes forwards to the native Steamworks library.
That library's behaviour is not visible here, so it is not modelled.

Files (one module each):

- `java_int.dfy` (`JavaInt`): Java `int` as a subset type, bytes as `bv8`, unsigned reading, wrapping negation.
- `wrappers.dfy` (`Wrappers`): `Option` (a possibly-null pointer) and `Result` (a call that may throw).
- `hex_string.dfy` (`HexString`): `Integer.toHexString` and its inverse.
- `handles.dfy` (`Handles`): the `Connection` and `Socket` datatypes and the Java objects `equals` may receive.
- `connections.dfy` (`Connections`), `sockets.dfy` (`Sockets`): the methods of the two handle classes.
- `connection_states.dfy` (`ConnectionStates`): `ConnectionState`, `getValue`, `byValue`.
- `send_flags.dfy` (`SendFlags`): the flag constants. It also reads a flags value as a record of independent options, so that the bit set has an inverse to be checked against.
- `native_receive.dfy` (`NativeReceive`): the JNI receive body. `Body` takes any answer the library may give: a count, possibly zero or negative, plus a possibly-null first slot. `ReceiveStep` runs the same body against an abstract FIFO inbound queue.
- `networking_sockets.dfy` (`NetworkingSockets`): `ByteBuffer`, `SteamException`, the Java-side send and receive, and the drain-until-zero idiom the receive documentation recommends.

## Model

| member | source | states |
|---|---|---|
| Connections.IsValid | java-wrapper/src/main/java/com/codedisaster/steamworks/SteamNetworkingSockets.java:14-16 | Defined as: the handle is not 0. |
| Connections.Equals | java-wrapper/src/main/java/com/codedisaster/steamworks/SteamNetworkingSockets.java:19-24 | Defined as: the argument is a `Connection` whose handle equals this one's. |
| Connections.HashCode | java-wrapper/src/main/java/com/codedisaster/steamworks/SteamNetworkingSockets.java:27-29 | Defined as: the handle. |
| Connections.ToString | java-wrapper/src/main/java/com/codedisaster/steamworks/SteamNetworkingSockets.java:32-34 | Defined as: `Integer.toHexString` of the handle. |
| Sockets.IsValid | java-wrapper/src/main/java/com/codedisaster/steamworks/SteamNetworkingSockets.java:44-46 | Defined as: the handle is not 0. |
| Sockets.HashCode | java-wrapper/src/main/java/com/codedisaster/steamworks/SteamNetworkingSockets.java:57-59 | Defined as: the handle. |
| Sockets.ToString | java-wrapper/src/main/java/com/codedisaster/steamworks/SteamNetworkingSockets.java:62-64 | Defined as: `Integer.toHexString` of the handle. |
| Sockets.EqualsAsWritten | java-wrapper/src/main/java/com/codedisaster/steamworks/SteamNetworkingSockets.java:48-53 | Defined as the source writes it: the argument is a `Connection` whose handle equals this socket's. |
| Sockets.Equals | java-wrapper/src/main/java/com/codedisaster/steamworks/SteamNetworkingSockets.java:48-53 | The intended definition: the argument is a `Socket` whose handle equals this one's. |
| ConnectionStates.ConnectionState.Value | java-wrapper/src/main/java/com/codedisaster/steamworks/SteamNetworkingSockets.java:72-154 | Defined as: the value each constant is declared with, 0 for `None` through 5 for `ProblemDetectedLocally`. |
| ConnectionStates.Search | java-wrapper/src/main/java/com/codedisaster/steamworks/SteamNetworkingSockets.java:157-162 | The loop returns a state whose value is the one asked for. Failing that, it returns `None`, and then no listed state has that value. |
| ConnectionStates.ByValue | java-wrapper/src/main/java/com/codedisaster/steamworks/SteamNetworkingSockets.java:156-163 | `byValue` is total: for 0..5 it returns the state with that value, and for any other `int` it returns `None`. |
| ConnectionStates.ValuesAreZeroToFive | java-wrapper/src/main/java/com/codedisaster/steamworks/SteamNetworkingSockets.java:72-146 | `values()` lists all six states, each exactly once. Position i holds the state whose value is i, so the values are exactly 0..5. |
| ConnectionStates.ValueInjective | java-wrapper/src/main/java/com/codedisaster/steamworks/SteamNetworkingSockets.java:145-154 | Distinct states have distinct `getValue`. |
| ConnectionStates.ByValueRoundTrip | java-wrapper/src/main/java/com/codedisaster/steamworks/SteamNetworkingSockets.java:145-163 | `byValue(s.getValue()) == s` for every state. |
| ConnectionStates.ValueRoundTrip | java-wrapper/src/main/java/com/codedisaster/steamworks/SteamNetworkingSockets.java:152-163 | For v in 0..5, `byValue(v).getValue() == v`. |
| ConnectionStates.ByValueNoneIff | java-wrapper/src/main/java/com/codedisaster/steamworks/SteamNetworkingSockets.java:72-163 | `byValue(v)` is `None` exactly when v is not in 1..5. A 0 therefore reads the same as an unrecognised value. |
| Connections.EqualsIffSameHandle | java-wrapper/src/main/java/com/codedisaster/steamworks/SteamNetworkingSockets.java:19-24 | Two connections are `equals` if and only if their handles are equal, which is also when they are the same value. |
| Connections.EqualsOnlyConnections | java-wrapper/src/main/java/com/codedisaster/steamworks/SteamNetworkingSockets.java:19-20 | `Connection.equals` answers false for null, for sockets and for any other class. |
| Connections.EqualsIsEquivalence | java-wrapper/src/main/java/com/codedisaster/steamworks/SteamNetworkingSockets.java:19-24 | `Connection.equals` is reflexive, symmetric and transitive on connections. |
| Connections.EqualsConsistentWithHashCode | java-wrapper/src/main/java/com/codedisaster/steamworks/SteamNetworkingSockets.java:19-29 | Connections that are `equals` have the same `hashCode`. |
| Connections.ValidIffNonZeroHash | java-wrapper/src/main/java/com/codedisaster/steamworks/SteamNetworkingSockets.java:14-29 | `isValid()` holds exactly when the handle, which is also the hash code, is non-zero. |
| Connections.InvalidConnectionsAreEqual | java-wrapper/src/main/java/com/codedisaster/steamworks/SteamNetworkingSockets.java:14-24 | All invalid connections are equal to one another. No valid connection equals an invalid one. |
| Connections.ToStringIffEquals | java-wrapper/src/main/java/com/codedisaster/steamworks/SteamNetworkingSockets.java:19-34 | Two connections print the same string exactly when they are `equals`. |
| Sockets.AsWrittenRejectsEverySocket | java-wrapper/src/main/java/com/codedisaster/steamworks/SteamNetworkingSockets.java:48-53 | As written, `Socket.equals` answers false for every `Socket` argument, including one with the same handle. |
| Sockets.AsWrittenNotReflexive | java-wrapper/src/main/java/com/codedisaster/steamworks/SteamNetworkingSockets.java:48-53 | As written, a socket is not equal to itself, which breaks the reflexivity `Object.equals` requires. |
| Sockets.AsWrittenNotSymmetric | java-wrapper/src/main/java/com/codedisaster/steamworks/SteamNetworkingSockets.java:19-53 | As written, a socket equals the connection with the same handle, but that connection does not equal the socket. |
| Sockets.EqualsIffSameHandle | java-wrapper/src/main/java/com/codedisaster/steamworks/SteamNetworkingSockets.java:48-53 | Under the intended `equals`, two sockets are equal if and only if their handles are equal. |
| Sockets.EqualsIsEquivalence | java-wrapper/src/main/java/com/codedisaster/steamworks/SteamNetworkingSockets.java:48-53 | The intended `equals` is an equivalence on sockets and never relates a socket to a connection, in either direction. |
| Sockets.EqualsConsistentWithHashCode | java-wrapper/src/main/java/com/codedisaster/steamworks/SteamNetworkingSockets.java:48-59 | Sockets equal under the intended `equals` have the same `hashCode`. |
| Sockets.ValidIffNonZeroHash | java-wrapper/src/main/java/com/codedisaster/steamworks/SteamNetworkingSockets.java:44-59 | `isValid()` holds exactly when the handle, which is also the hash code, is non-zero. |
| Sockets.ToStringIffEquals | java-wrapper/src/main/java/com/codedisaster/steamworks/SteamNetworkingSockets.java:48-64 | Two sockets print the same string exactly when they are equal under the intended `equals`. |
| HexString.ToHexString | java-wrapper/src/main/java/com/codedisaster/steamworks/SteamNetworkingSockets.java:33 | `Integer.toHexString` produces a canonical digit string of length 1..8 whose value is the `int` read as unsigned. |
| HexString.DigitsRoundTrip | java-wrapper/src/main/java/com/codedisaster/steamworks/SteamNetworkingSockets.java:33 | Reading back the hex digits written for n gives n. |
| HexString.CanonicalRoundTrip | java-wrapper/src/main/java/com/codedisaster/steamworks/SteamNetworkingSockets.java:33 | Writing out the value of any canonical hex string (no leading zero) gives the string back. |
| HexString.ToHexStringInjective | java-wrapper/src/main/java/com/codedisaster/steamworks/SteamNetworkingSockets.java:33 | Different handles print different strings. |
| HexString.ParseThenPrint | java-wrapper/src/main/java/com/codedisaster/steamworks/SteamNetworkingSockets.java:33 | Every canonical string of at most 8 digits is what `toHexString` prints for some `int`. |
| JavaInt.Negate | java-wrapper/src/main/java/com/codedisaster/steamworks/SteamNetworkingSockets.java:423 | Java's `-x` on an `int` wraps modulo 2^32. It is the true negation for every value except the most negative one. |
| SendFlags.BaseFlagsAreDistinctBits | java-wrapper/src/main/java/com/codedisaster/steamworks/SteamNetworkingSockets.java:184-294 | `NoNagle`, `NoDelay`, `Reliable`, `UseCurrentThread` and `AutoRestartBrokenSession` are each a single bit, and no two share a bit. `Unreliable` is 0. |
| SendFlags.CompositeValues | java-wrapper/src/main/java/com/codedisaster/steamworks/SteamNetworkingSockets.java:203-254 | The composites are the ORs as written: `UnreliableNoNagle` = 1, `UnreliableNoDelay` = 5, `ReliableNoNagle` = 9. The base flags together cover 0x3D. |
| SendFlags.Encode | java-wrapper/src/main/java/com/codedisaster/steamworks/SteamNetworkingSockets.java:170-294 | An option set is encoded as the OR of its flags. Each flag's bit is set exactly when its option is selected, and no other bit is set. |
| SendFlags.Decode | java-wrapper/src/main/java/com/codedisaster/steamworks/SteamNetworkingSockets.java:170-294 | A flags value is read back as a set of options. The reading fails exactly when a bit outside the known flags is set. |
| SendFlags.DecodeEncode | java-wrapper/src/main/java/com/codedisaster/steamworks/SteamNetworkingSockets.java:170-294 | Encoding a set of options and reading it back gives the same options. |
| SendFlags.EncodeDecode | java-wrapper/src/main/java/com/codedisaster/steamworks/SteamNetworkingSockets.java:170-294 | Every flags value made only of known bits is the encoding of the options it reads as. |
| SendFlags.NamedCombinations | java-wrapper/src/main/java/com/codedisaster/steamworks/SteamNetworkingSockets.java:184-254 | Gives the options each named combination selects. For example, `UnreliableNoDelay` selects NoNagle and NoDelay and is unreliable. |
| NativeReceive.Memcpy | java-wrapper/src/main/java/com/codedisaster/steamworks/SteamNetworkingSocketsNative.java:66 | The copy writes the payload at the offset, keeps the length, and changes no other byte. |
| NativeReceive.Body | java-wrapper/src/main/java/com/codedisaster/steamworks/SteamNetworkingSocketsNative.java:51-73 | With a count of 0 or less, or a null message, the result is 0, nothing is released and nothing is written. A message too large for the window gives minus its size (negative) and an untouched buffer. A message that fits is copied to the offset and its size (at most the window) is returned. Any taken message is released on both paths. Bytes outside the written range never change. |
| NativeReceive.TakeOne | java-wrapper/src/main/java/com/codedisaster/steamworks/SteamNetworkingSocketsNative.java:53-55 | The library is asked for at most one message. It hands over the oldest queued message, and the queue shrinks by exactly the count it reports. |
| NativeReceive.ReceiveStep | java-wrapper/src/main/java/com/codedisaster/steamworks/SteamNetworkingSocketsNative.java:51-73 | On the queue: if it is empty, the step returns 0 and changes nothing. Otherwise the oldest message is always consumed. It is either copied, with its size returned, or dropped, with minus its size returned and the buffer unchanged. The result never exceeds the window. |
| NativeReceive.ZeroResultIff | java-wrapper/src/main/java/com/codedisaster/steamworks/SteamNetworkingSocketsNative.java:56-72 | A result of 0 means exactly that the queue was empty or its oldest message was empty. |
| NativeReceive.EmptyMessageLooksLikeNoMessage | java-wrapper/src/main/java/com/codedisaster/steamworks/SteamNetworkingSocketsNative.java:56-72 | A zero-length message gives the same result as an empty queue and writes nothing, yet it is consumed. |
| NativeReceive.RepeatedReceiveConsumes | java-wrapper/src/main/java/com/codedisaster/steamworks/SteamNetworkingSocketsNative.java:60-72 | After k receives on a queue of at least k messages, exactly the first k are gone, whether or not they fit. |
| NetworkingSockets.SendMessageToConnection | java-wrapper/src/main/java/com/codedisaster/steamworks/SteamNetworkingSockets.java:352-358 | A heap buffer throws "Direct buffer required!". For non-null arguments, this is the only case that throws: a direct buffer always reaches the native call. The native call receives the connection's handle, the flags unchanged, `position()` as the offset and `remaining()` as the size. It is therefore shown exactly the bytes between position and limit. |
| NetworkingSockets.CheckBytesWritten | java-wrapper/src/main/java/com/codedisaster/steamworks/SteamNetworkingSockets.java:421-426 | A negative native result throws an overflow exception carrying minus that result and the remaining size. Minus the result is positive, except for `Integer.MIN_VALUE`, which the native side never returns. Any other result is returned unchanged. |
| NetworkingSockets.ReceiveMessageOnConnection | java-wrapper/src/main/java/com/codedisaster/steamworks/SteamNetworkingSockets.java:416-427 | A heap buffer throws before the queue is touched. An empty queue returns 0. Otherwise the oldest message is consumed. Either its size is returned with the payload at the position and every other byte unchanged, or an overflow reporting its size is thrown with the buffer unchanged. Position and limit never move. |
| NetworkingSockets.ReceiveWithinRemaining | java-wrapper/src/main/java/com/codedisaster/steamworks/SteamNetworkingSockets.java:416-427 | A successful receive never reports more bytes than `remaining()`. |
| NetworkingSockets.OverflowIff | java-wrapper/src/main/java/com/codedisaster/steamworks/SteamNetworkingSockets.java:416-427 | With a direct buffer, a receive throws exactly when the oldest message exceeds `remaining()`. The size it then reports is larger than the remaining size it reports. |
| NetworkingSockets.DrainUntilZero | java-wrapper/src/main/java/com/codedisaster/steamworks/SteamNetworkingSockets.java:411-414 | Receiving until the call returns 0 or throws delivers a prefix of the queue. Every delivered message is non-empty and fits. The loop stops right after the first empty or oversized message, or at the end of the queue. It delivers the whole queue exactly when every message is non-empty and fits. |
| NetworkingSockets.DrainStopDeliversAllIff | java-wrapper/src/main/java/com/codedisaster/steamworks/SteamNetworkingSockets.java:411-414 | At the point where draining stops, the whole queue has been delivered exactly when every message in it is non-empty and fits. |

## Findings

| source | as written | input that shows it | evidently intended | confidence | as-written member | corrected member |
|---|---|---|---|---|---|---|
| java-wrapper/src/main/java/com/codedisaster/steamworks/SteamNetworkingSockets.java:48-53 | `Socket.equals` tests `instanceof Connection` and casts to `Connection` | `new Socket(7).equals(new Socket(7))` is false. `new Socket(7).equals(new Connection(7))` is true, but the reverse call is false. | Compare with another `Socket` by handle, as `Connection.equals` does | high (not executed) | Sockets.EqualsAsWritten, Sockets.AsWrittenNotReflexive | Sockets.Equals, Sockets.EqualsIsEquivalence |

## Left out

- Native library behaviour is not modelled. This covers the connection state machine, reliability, fragmentation, Nagle coalescing, flow control, rendezvous and symmetric connect. All of it lives inside the Steamworks library, whose source is not part of this model.
- `connectP2P`, `createListenSocketP2P`, `acceptConnection`, `closeConnection`, `closeListenSocket` and `flushMessages` are not modelled: they only forward to the library and wrap what it returns. The same holds for `enableSymmetricConnect` and the native `sendMessageToConnection`.
- The mapping of the send result through `SteamResult.byValue` is not modelled: `SteamResult` is not part of this model. `NetworkingSockets.SendMessageToConnection` ends at the arguments of the native call.
- `SteamNetworkingSocketsCallbackAdapter`, `SteamNetworkingSocketsCallback` and `createCallback` are not modelled. Event delivery is asynchronous and driven by library threads. The adapter only applies `byValue`, which is modelled.
- The library's lookup from connection handle to inbound queue is not modelled. `NetworkingSockets.ReceiveMessageOnConnection` receives that connection's queue directly. A bad handle, which the library answers with a negative count, is covered by `NativeReceive.Body`.
- The library's retrieval order is abstracted. `NativeReceive.TakeOne` hands out the oldest queued message, which is the per-connection FIFO order the API documents.
- The use-after-free at java-wrapper/src/main/java/com/codedisaster/steamworks/SteamNetworkingSocketsNative.java:62-63 is not modelled. The code reads `m_cbSize` after `Release()`. The model returns the intended value, minus the size read before the release, and does not model the memory fault.
- Buffer position advancement is not modelled. The documentation at java-wrapper/src/main/java/com/codedisaster/steamworks/SteamNetworkingSockets.java:399 says the position advances on success, but the code at java-wrapper/src/main/java/com/codedisaster/steamworks/SteamNetworkingSockets.java:421-426 never changes it, and the model follows the code.
- The text of the exception messages is not modelled. `SteamException` records the two numbers the overflow message prints, not the string.
- The rule that `NoDelay` may not be combined with `Reliable` is not modelled. It is only documented, at java-wrapper/src/main/java/com/codedisaster/steamworks/SteamNetworkingSockets.java:215-218, where the documentation calls the combination invalid. The binding does not enforce it.
- NetworkingSockets.SendMessageToConnection, NetworkingSockets.ReceiveMessageOnConnection: null arguments are not modelled. A null buffer or connection makes the Java method throw `NullPointerException`, at lines 353 and 357 for send and at lines 417 and 421 for receive. `Connection` and `ByteBuffer` are datatypes and cannot be null.
- JNI marshalling and direct-memory details are not modelled. A direct buffer is its sequence of bytes, and the native side indexes it from its base, as the binding passes `position()` as the offset.
