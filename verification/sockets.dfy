/**
 * The methods of `SteamNetworkingSockets.Socket`.
 *
 * `Socket.equals` as written tests `instanceof Connection` and compares with a
 * connection's handle, so a socket is never equal to any socket, itself
 * included. `EqualsAsWritten` keeps that behaviour and the lemmas after it
 * exhibit the broken `Object.equals` contract; `Equals` is the evidently
 * intended test against another `Socket`, and it is the one the model uses.
 */
module Sockets {
  import opened JavaInt
  import opened Handles
  import Connections
  import HexString

  /** `isValid()`: handle 0 is the library's invalid listen socket. */
  predicate IsValid(s: Socket) {
    s.handle != InvalidHandle
  }

  /** `hashCode()`: the handle itself. */
  function HashCode(s: Socket): int32 {
    s.handle
  }

  /** `toString()`: the handle in hexadecimal. */
  function ToString(s: Socket): seq<char>
  {
    HexString.ToHexString(s.handle)
  }

  /** `equals(Object)` exactly as the source writes it: it tests for a `Connection`. */
  predicate EqualsAsWritten(s: Socket, o: JavaObject) {
    o.ConnectionObject? && s.handle == o.connection.handle
  }

  /** As written, no socket equals any socket, not even itself. */
  lemma AsWrittenRejectsEverySocket(s: Socket, t: Socket)
    ensures !EqualsAsWritten(s, SocketObject(t))
  {
  }

  /** As written, `equals` is not reflexive: handle 7 is not equal to itself. */
  lemma AsWrittenNotReflexive()
    ensures !EqualsAsWritten(Socket(7), SocketObject(Socket(7)))
  {
  }

  /**
   * As written, `equals` is not symmetric: a socket equals the connection with
   * the same handle, but that connection does not equal the socket.
   */
  lemma AsWrittenNotSymmetric(h: int32)
    ensures EqualsAsWritten(Socket(h), ConnectionObject(Connection(h)))
    ensures !Connections.Equals(Connection(h), SocketObject(Socket(h)))
  {
  }

  /** The intended `equals(Object)`: another `Socket` with the same handle. */
  predicate Equals(s: Socket, o: JavaObject) {
    o.SocketObject? && s.handle == o.socket.handle
  }

  /** Two sockets are equal exactly when they box the same handle. */
  lemma EqualsIffSameHandle(s: Socket, t: Socket)
    ensures Equals(s, SocketObject(t)) <==> s.handle == t.handle
    ensures Equals(s, SocketObject(t)) <==> s == t
  {
  }

  /** The intended `equals` is an equivalence on sockets and never matches a connection. */
  lemma EqualsIsEquivalence(a: Socket, b: Socket, c: Socket, k: Connection)
    ensures Equals(a, SocketObject(a))
    ensures Equals(a, SocketObject(b)) <==> Equals(b, SocketObject(a))
    ensures Equals(a, SocketObject(b)) && Equals(b, SocketObject(c)) ==> Equals(a, SocketObject(c))
    ensures !Equals(a, ConnectionObject(k)) && !Connections.Equals(k, SocketObject(a))
  {
  }

  /** Equal sockets have equal hash codes. */
  lemma EqualsConsistentWithHashCode(s: Socket, o: JavaObject)
    requires Equals(s, o)
    ensures HashCode(s) == HashCode(o.socket)
  {
  }

  /** Validity is decided by the hash code: only the invalid handle hashes to 0. */
  lemma ValidIffNonZeroHash(s: Socket)
    ensures IsValid(s) <==> HashCode(s) != 0
  {
  }

  /** Sockets print alike exactly when they are equal under the intended `equals`. */
  lemma ToStringIffEquals(s: Socket, t: Socket)
    ensures ToString(s) == ToString(t) <==> Equals(s, SocketObject(t))
  {
    HexString.ToHexStringInjective(s.handle, t.handle);
  }
}
