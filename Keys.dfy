/**
 * Display keys of note items. Each item of the note list gets the key
 * `"" + key++`, i.e. the decimal numeral of its index in the list.
 */
module Keys {

  /** The character of the decimal digit d. */
  function DigitChar(d: nat): (c: char)
    requires d < 10
    ensures '0' <= c <= '9'
    ensures c as int - '0' as int == d
  {
    ('0' as int + d) as char
  }

  /** All characters of s are decimal digits. */
  predicate IsNumeral(s: string)
  {
    forall i :: 0 <= i < |s| ==> '0' <= s[i] <= '9'
  }

  /** The decimal numeral of n, without leading zeros, as JavaScript prints a non-negative integer. */
  function DecimalString(n: nat): (s: string)
    ensures |s| >= 1 && IsNumeral(s)
    ensures s[0] == '0' ==> n == 0
    decreases n
  {
    if n < 10 then [DigitChar(n)] else DecimalString(n / 10) + [DigitChar(n % 10)]
  }

  /** The number a decimal numeral denotes (the inverse of DecimalString). */
  function DecimalValue(s: string): nat
    requires IsNumeral(s)
    decreases |s|
  {
    if s == [] then 0 else DecimalValue(s[..|s| - 1]) * 10 + (s[|s| - 1] as int - '0' as int)
  }

  /** Reading back the numeral of n gives n. */
  lemma {:induction false} DecimalRoundTrip(n: nat)
    ensures DecimalValue(DecimalString(n)) == n
    decreases n
  {
    if n >= 10 {
      DecimalRoundTrip(n / 10);
      var s := DecimalString(n);
      assert s[..|s| - 1] == DecimalString(n / 10);
    }
  }

  /** Two indices get the same key exactly when they are the same index. */
  lemma KeysDistinct(i: nat, j: nat)
    ensures DecimalString(i) == DecimalString(j) <==> i == j
  {
    if DecimalString(i) == DecimalString(j) {
      DecimalRoundTrip(i);
      DecimalRoundTrip(j);
    }
  }
}
