/** The methods of `SteamNetworkingSockets.Connection`. */
module Connections {
  import opened JavaInt
  import opened Handles
  import HexString

  /** `isValid()`: the library never hands out handle 0 for a live connection. */
  predicate IsValid(c: Connection) {
    c.handle != InvalidHandle
  }

  /** `equals(Object)`: only another `Connection` with the same handle is equal. */
  predicate Equals(c: Connection, o: JavaObject) {
    o.ConnectionObject? && c.handle == o.connection.handle
  }

  /** `hashCode()`: the handle itself. */
  function HashCode(c: Connection): int32 {
    c.handle
  }

  /** `toString()`: the handle in hexadecimal. */
  function ToString(c: Connection): seq<char>
  {
    HexString.ToHexString(c.handle)
  }

  /** Two connections are equal exactly when they box the same handle. */
  lemma EqualsIffSameHandle(c: Connection, d: Connection)
    ensures Equals(c, ConnectionObject(d)) <==> c.handle == d.handle
    ensures Equals(c, ConnectionObject(d)) <==> c == d
  {
  }

  /** `equals` answers false for null, for sockets and for every other class. */
  lemma EqualsOnlyConnections(c: Connection, o: JavaObject)
    requires !o.ConnectionObject?
    ensures !Equals(c, o)
  {
  }

  /** `equals` is an equivalence on connections, as `Object.equals` requires. */
  lemma EqualsIsEquivalence(a: Connection, b: Connection, c: Connection)
    ensures Equals(a, ConnectionObject(a))
    ensures Equals(a, ConnectionObject(b)) <==> Equals(b, ConnectionObject(a))
    ensures Equals(a, ConnectionObject(b)) && Equals(b, ConnectionObject(c)) ==> Equals(a, ConnectionObject(c))
  {
  }

  /** Equal connections have equal hash codes, as `Object.hashCode` requires. */
  lemma EqualsConsistentWithHashCode(c: Connection, o: JavaObject)
    requires Equals(c, o)
    ensures HashCode(c) == HashCode(o.connection)
  {
  }

  /** Validity is decided by the hash code: only the invalid handle hashes to 0. */
  lemma ValidIffNonZeroHash(c: Connection)
    ensures IsValid(c) <==> HashCode(c) != 0
  {
  }

  /** All invalid connections are equal to one another; valid ones never equal an invalid one. */
  lemma InvalidConnectionsAreEqual(c: Connection, d: Connection)
    ensures !IsValid(c) && !IsValid(d) ==> Equals(c, ConnectionObject(d))
    ensures IsValid(c) != IsValid(d) ==> !Equals(c, ConnectionObject(d))
  {
  }

  /** Connections print alike exactly when they are equal. */
  lemma ToStringIffEquals(c: Connection, d: Connection)
    ensures ToString(c) == ToString(d) <==> Equals(c, ConnectionObject(d))
  {
    HexString.ToHexStringInjective(c.handle, d.handle);
  }
}
