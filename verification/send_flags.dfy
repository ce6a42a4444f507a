/**
 * `SteamNetworkingSockets.SendFlags`: the send options as bits of a Java `int`,
 * combined with `|`, together with a reading of such a bit set as a record of
 * independent options.
 */
module SendFlags {
  import opened Wrappers

  const Unreliable: bv32 := 0
  const NoNagle: bv32 := 1
  const UnreliableNoNagle: bv32 := Unreliable | NoNagle
  const NoDelay: bv32 := 4
  const UnreliableNoDelay: bv32 := Unreliable | NoDelay | NoNagle
  const Reliable: bv32 := 8
  const ReliableNoNagle: bv32 := Reliable | NoNagle
  const UseCurrentThread: bv32 := 16
  const AutoRestartBrokenSession: bv32 := 32

  /** The flags that each stand for one option. */
  const BaseFlags: seq<bv32> := [NoNagle, NoDelay, Reliable, UseCurrentThread, AutoRestartBrokenSession]

  /** Every bit some option uses. */
  const KnownBits: bv32 := NoNagle | NoDelay | Reliable | UseCurrentThread | AutoRestartBrokenSession

  predicate IsSingleBit(f: bv32) {
    f != 0 && f & (f - 1) == 0
  }

  /** The base flags are single bits, no two share a bit, and `Unreliable` is the empty set. */
  lemma BaseFlagsAreDistinctBits()
    ensures forall i :: 0 <= i < |BaseFlags| ==> IsSingleBit(BaseFlags[i])
    ensures forall i, j :: 0 <= i < j < |BaseFlags| ==> BaseFlags[i] & BaseFlags[j] == 0
    ensures Unreliable == 0
  {
  }

  /** The named combinations are the ORs the source spells out, with these values. */
  lemma CompositeValues()
    ensures UnreliableNoNagle == 1 && UnreliableNoNagle == NoNagle
    ensures UnreliableNoDelay == 5
    ensures ReliableNoNagle == 9
    ensures KnownBits == 0x3D
  {
  }

  /** The options a send-flags value selects, one boolean per base flag. */
  datatype SendOptions = SendOptions(
    noNagle: bool,
    noDelay: bool,
    reliable: bool,
    useCurrentThread: bool,
    autoRestartBrokenSession: bool)

  function Bit(selected: bool, flag: bv32): bv32 {
    if selected then flag else 0
  }

  /** The flags value that selects exactly the options in `o`. */
  function Encode(o: SendOptions): (f: bv32)
    ensures f & !KnownBits == 0
    ensures (f & NoNagle != 0) == o.noNagle
    ensures (f & NoDelay != 0) == o.noDelay
    ensures (f & Reliable != 0) == o.reliable
    ensures (f & UseCurrentThread != 0) == o.useCurrentThread
    ensures (f & AutoRestartBrokenSession != 0) == o.autoRestartBrokenSession
  {
    Bit(o.noNagle, NoNagle) | Bit(o.noDelay, NoDelay) | Bit(o.reliable, Reliable)
    | Bit(o.useCurrentThread, UseCurrentThread)
    | Bit(o.autoRestartBrokenSession, AutoRestartBrokenSession)
  }

  /** The options a flags value selects, or `None` when it sets a bit no option uses. */
  function Decode(f: bv32): (r: Option<SendOptions>)
    ensures r.None? <==> f & !KnownBits != 0
  {
    if f & !KnownBits != 0 then None
    else Some(SendOptions(
      f & NoNagle != 0,
      f & NoDelay != 0,
      f & Reliable != 0,
      f & UseCurrentThread != 0,
      f & AutoRestartBrokenSession != 0))
  }

  /** Reading back an encoded option set gives the same options. */
  lemma DecodeEncode(o: SendOptions)
    ensures Decode(Encode(o)) == Some(o)
  {
  }

  /** Every flags value made only of known bits is the encoding of what it decodes to. */
  lemma EncodeDecode(f: bv32)
    requires Decode(f).Some?
    ensures Encode(Decode(f).value) == f
  {
  }

  /** What the named combinations select. */
  lemma NamedCombinations()
    ensures Decode(Unreliable) == Some(SendOptions(false, false, false, false, false))
    ensures Decode(UnreliableNoNagle) == Some(SendOptions(true, false, false, false, false))
    ensures Decode(UnreliableNoDelay) == Some(SendOptions(true, true, false, false, false))
    ensures Decode(Reliable) == Some(SendOptions(false, false, true, false, false))
    ensures Decode(ReliableNoNagle) == Some(SendOptions(true, false, true, false, false))
  {
  }
}
