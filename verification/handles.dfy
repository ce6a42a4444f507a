/**
 * The two handle classes nested in `SteamNetworkingSockets`, and the Java
 * objects their `equals(Object)` can be handed.
 */
module Handles {
  import opened JavaInt

  /** `SteamNetworkingSockets.Connection`: a boxed connection handle. */
  datatype Connection = Connection(handle: int32)

  /** `SteamNetworkingSockets.Socket`: a boxed listen-socket handle. */
  datatype Socket = Socket(handle: int32)

  /**
   * An argument of `equals(Object)`: null, one of the two handle classes, or an
   * object of any other class (told apart by its identity).
   */
  datatype JavaObject =
    | Null
    | ConnectionObject(connection: Connection)
    | SocketObject(socket: Socket)
    | OtherObject(identity: int)

  /** The handle value the native library uses to mean "no such connection or socket". */
  const InvalidHandle: int32 := 0
}
