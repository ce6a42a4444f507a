/**
 * `Integer.toHexString`, which `Connection.toString` and `Socket.toString` apply
 * to their handle: the unsigned 32-bit value in lower-case base 16, without
 * leading zeros ("0" for zero).
 */
module HexString {
  import opened JavaInt

  predicate IsHexDigit(c: char) {
    '0' <= c <= '9' || 'a' <= c <= 'f'
  }

  predicate AllHexDigits(s: seq<char>) {
    forall i :: 0 <= i < |s| ==> IsHexDigit(s[i])
  }

  /** A digit string as `toHexString` writes one: non-empty, no leading zero. */
  predicate IsCanonical(s: seq<char>) {
    && |s| >= 1
    && AllHexDigits(s)
    && (s[0] == '0' ==> |s| == 1)
  }

  function DigitChar(d: nat): (c: char)
    requires d < 16
    ensures IsHexDigit(c)
  {
    if d < 10 then ('0' as int + d) as char else ('a' as int + d - 10) as char
  }

  function DigitValue(c: char): (d: nat)
    requires IsHexDigit(c)
    ensures d < 16
    ensures DigitChar(d) == c
  {
    if c <= '9' then c as int - '0' as int else c as int - 'a' as int + 10
  }

  /** The base-16 digits of `n`, most significant first. */
  function Digits(n: nat): (s: seq<char>)
    ensures IsCanonical(s)
    ensures n > 0 ==> s[0] != '0'
    decreases n
  {
    if n < 16 then [DigitChar(n)] else Digits(n / 16) + [DigitChar(n % 16)]
  }

  /** The number a string of hex digits denotes: the reading direction of `Digits`. */
  function ValueOf(s: seq<char>): nat
    requires AllHexDigits(s)
  {
    if |s| == 0 then 0 else ValueOf(s[..|s| - 1]) * 16 + DigitValue(s[|s| - 1])
  }

  function Pow16(k: nat): (p: nat)
    ensures p >= 1
  {
    if k == 0 then 1 else 16 * Pow16(k - 1)
  }

  /** Reading back the digits of `n` gives `n`. */
  lemma {:induction false} DigitsRoundTrip(n: nat)
    ensures ValueOf(Digits(n)) == n
    decreases n
  {
    var s := Digits(n);
    if n >= 16 {
      DigitsRoundTrip(n / 16);
      assert s[..|s| - 1] == Digits(n / 16);
    }
  }

  /** A canonical digit string with a non-zero lead digit denotes a positive number. */
  lemma {:induction false} CanonicalValuePositive(s: seq<char>)
    requires |s| >= 1 && AllHexDigits(s) && s[0] != '0'
    ensures ValueOf(s) >= 1
    decreases |s|
  {
    if |s| > 1 {
      CanonicalValuePositive(s[..|s| - 1]);
    } else {
      assert DigitChar(DigitValue(s[0])) == s[0];
    }
  }

  /** Writing out the value of a canonical digit string gives the string back. */
  lemma {:induction false} CanonicalRoundTrip(s: seq<char>)
    requires IsCanonical(s)
    ensures Digits(ValueOf(s)) == s
    decreases |s|
  {
    var d := DigitValue(s[|s| - 1]);
    if |s| == 1 {
      assert ValueOf(s) == d;
    } else {
      var p := s[..|s| - 1];
      CanonicalValuePositive(p);
      CanonicalRoundTrip(p);
      var n := ValueOf(s);
      assert n == ValueOf(p) * 16 + d;
      assert n / 16 == ValueOf(p) && n % 16 == d;
      assert s == p + [s[|s| - 1]];
    }
  }

  /** A number below 16^k needs at most k digits. */
  lemma {:induction false} DigitsLength(n: nat, k: nat)
    requires k >= 1 && n < Pow16(k)
    ensures |Digits(n)| <= k
    decreases k
  {
    if n >= 16 {
      assert Pow16(1) == 16;
      assert k >= 2;
      assert n / 16 < Pow16(k - 1);
      DigitsLength(n / 16, k - 1);
    }
  }

  /** `Integer.toHexString(x)`. */
  function ToHexString(x: int32): (s: seq<char>)
    ensures IsCanonical(s)
    ensures 1 <= |s| <= 8
    ensures ValueOf(s) == ToUnsigned(x)
  {
    var u := ToUnsigned(x);
    DigitsRoundTrip(u);
    assert Pow16(8) == TwoTo32;
    DigitsLength(u, 8);
    Digits(u)
  }

  /** Different handles print differently. */
  lemma ToHexStringInjective(x: int32, y: int32)
    ensures ToHexString(x) == ToHexString(y) ==> x == y
  {
    ToUnsignedInjective(x, y);
  }

  /**
   * Parsing a canonical string of at most 8 hex digits as an unsigned 32-bit
   * value and printing the resulting `int` gives the string back.
   */
  lemma ParseThenPrint(s: seq<char>) returns (x: int32)
    requires IsCanonical(s) && ValueOf(s) < TwoTo32
    ensures ToUnsigned(x) == ValueOf(s)
    ensures ToHexString(x) == s
  {
    var v := ValueOf(s);
    x := if v > MaxInt32 then v - TwoTo32 else v;
    assert ToUnsigned(x) == v;
    CanonicalRoundTrip(s);
  }
}
