/** The dictionary keys of the correlation output are `int.ToString()`
    strings. This module renders an integer the way the invariant culture
    does (an optional `-` followed by decimal digits without leading zeros),
    parses such a string back, and proves that the rendering loses nothing,
    so that two readings share a key exactly when they share an id. */
module IdKeys {
  import opened Wrappers

  /** The character for the decimal digit `d`. */
  function DigitChar(d: nat): (c: char)
    requires d < 10
    ensures '0' <= c <= '9'
    ensures c as int - '0' as int == d
  {
    ('0' as int + d) as char
  }

  /** True when every character of `s` is a decimal digit. */
  predicate AllDigits(s: string)
  {
    forall k :: 0 <= k < |s| ==> '0' <= s[k] <= '9'
  }

  /** The decimal rendering of a natural number, most significant digit first. */
  function NatToDecimal(n: nat): (s: string)
    ensures |s| >= 1
    ensures AllDigits(s)
    ensures |s| > 1 ==> s[0] != '0'
    decreases n
  {
    if n < 10 then [DigitChar(n)]
    else NatToDecimal(n / 10) + [DigitChar(n % 10)]
  }

  /** The value of a string of decimal digits (the empty string reads as 0). */
  function DecimalToNat(s: string): nat
    requires AllDigits(s)
    decreases |s|
  {
    if |s| == 0 then 0
    else 10 * DecimalToNat(s[..|s| - 1]) + (s[|s| - 1] as int - '0' as int)
  }

  /** Reading back the rendering of `n` gives `n`. */
  lemma {:induction false} DecimalRoundTrip(n: nat)
    ensures DecimalToNat(NatToDecimal(n)) == n
    decreases n
  {
    if n >= 10 {
      var s := NatToDecimal(n / 10);
      var t := s + [DigitChar(n % 10)];
      assert t == NatToDecimal(n);
      assert t[..|t| - 1] == s;
      DecimalRoundTrip(n / 10);
    }
  }

  /** `id.ToString()` in the invariant culture: a `-` exactly for a negative
      id, then at least one digit and no leading zero. */
  function IdKey(id: int): (k: string)
    ensures |k| >= 1
    ensures k[0] == '-' <==> id < 0
    ensures var digits := if id < 0 then k[1..] else k;
      |digits| >= 1 && AllDigits(digits) && (|digits| > 1 ==> digits[0] != '0')
  {
    if id < 0 then "-" + NatToDecimal(-id) else NatToDecimal(id)
  }

  /** Parses a key back into an integer; `None` for a string that is not an
      optional `-` followed by at least one digit. */
  function ParseKey(k: string): (id: Option<int>)
  {
    if 1 < |k| && k[0] == '-' && AllDigits(k[1..]) then Some(0 - DecimalToNat(k[1..]) as int)
    else if 0 < |k| && AllDigits(k) then Some(DecimalToNat(k))
    else None
  }

  /** Every key parses back to the id it was rendered from. */
  lemma KeyRoundTrip(id: int)
    ensures ParseKey(IdKey(id)) == Some(id)
  {
    if id < 0 {
      NegativeKeyRoundTrip(-id);
    } else {
      NonNegativeKeyRoundTrip(id);
    }
  }

  /** `KeyRoundTrip` for a negative id `-n`. */
  lemma NegativeKeyRoundTrip(n: nat)
    requires n > 0
    ensures ParseKey("-" + NatToDecimal(n)) == Some(0 - n)
  {
    var d := NatToDecimal(n);
    var k := "-" + d;
    assert k[1..] == d;
    DecimalRoundTrip(n);
  }

  /** `KeyRoundTrip` for an id `n` that is not negative. */
  lemma NonNegativeKeyRoundTrip(n: nat)
    ensures ParseKey(NatToDecimal(n)) == Some(n)
  {
    var k := NatToDecimal(n);
    assert '0' <= k[0] <= '9';
    DecimalRoundTrip(n);
  }

  /** Distinct ids have distinct keys: the dictionary keyed by
      `id.ToString()` distinguishes exactly what the ids distinguish. */
  lemma KeyInjective(id1: int, id2: int)
    ensures IdKey(id1) == IdKey(id2) <==> id1 == id2
  {
    KeyRoundTrip(id1);
    KeyRoundTrip(id2);
  }
}
