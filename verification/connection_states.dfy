/** `SteamNetworkingSockets.ConnectionState` and its integer encoding. */
module ConnectionStates {
  import opened JavaInt

  /**
   * The connection states the binding reports, in declaration order. `None`
   * stands for "no such connection" and for any value the binding does not
   * recognise.
   */
  datatype ConnectionState =
    | None
    | Connecting
    | FindingRoute
    | Connected
    | ClosedByPeer
    | ProblemDetectedLocally
  {
    /** `getValue()`: the value the native library uses for this state. */
    function Value(): int32 {
      match this
      case None => 0
      case Connecting => 1
      case FindingRoute => 2
      case Connected => 3
      case ClosedByPeer => 4
      case ProblemDetectedLocally => 5
    }
  }

  /** `values()`: every state, in declaration order. */
  const Values: seq<ConnectionState> :=
    [None, Connecting, FindingRoute, Connected, ClosedByPeer, ProblemDetectedLocally]

  /**
   * The loop of `byValue` over `states`: the first state whose value is `v`,
   * or `None` when no state has it.
   */
  function Search(states: seq<ConnectionState>, v: int): (s: ConnectionState)
    ensures s == None || s in states
    ensures s.Value() == v || (s == None && forall t :: t in states ==> t.Value() != v)
  {
    if |states| == 0 then None
    else if states[0].Value() == v then states[0]
    else Search(states[1..], v)
  }

  /** `byValue(int)`: total, it decodes 0..5 and answers `None` for anything else. */
  function ByValue(v: int32): (s: ConnectionState)
    ensures 0 <= v <= 5 ==> s.Value() == v
    ensures !(0 <= v <= 5) ==> s == None
  {
    assert 0 <= v <= 5 ==> Values[v] in Values && Values[v].Value() == v;
    Search(Values, v)
  }

  /** The values are exactly 0..5, listed in order, and `values()` holds every state once. */
  lemma ValuesAreZeroToFive()
    ensures |Values| == 6
    ensures forall i :: 0 <= i < |Values| ==> Values[i].Value() == i
    ensures forall s: ConnectionState :: s in Values && 0 <= s.Value() <= 5
  {
    forall s: ConnectionState
      ensures s in Values
    {
      assert Values[s.Value()] == s;
    }
  }

  /** `getValue` is injective: distinct states have distinct values. */
  lemma ValueInjective(s: ConnectionState, t: ConnectionState)
    ensures s.Value() == t.Value() ==> s == t
  {
  }

  /** Decoding the value of a state gives the state back. */
  lemma ByValueRoundTrip(s: ConnectionState)
    ensures ByValue(s.Value()) == s
  {
    ValueInjective(ByValue(s.Value()), s);
  }

  /** Encoding a decoded in-range value gives the value back. */
  lemma ValueRoundTrip(v: int32)
    requires 0 <= v <= 5
    ensures ByValue(v).Value() == v
  {
  }

  /**
   * `byValue` answers `None` exactly for 0 and for unrecognised values, so the
   * caller cannot tell "no such connection" from an unknown state.
   */
  lemma ByValueNoneIff(v: int32)
    ensures ByValue(v) == None <==> !(1 <= v <= 5)
  {
  }
}
