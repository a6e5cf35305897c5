/** Decimal numerals as Rust writes and reads them. */
module Numerals {
  import opened ByteStrings

  const DIGIT_ZERO: byte := 48

  /** `usize::to_string`. */
  function Decimal(n: nat): (s: Bytes)
    ensures |s| > 0
    ensures forall i :: 0 <= i < |s| ==> DIGIT_ZERO <= s[i] < DIGIT_ZERO + 10
  {
    if n < 10 then [DIGIT_ZERO + n] else Decimal(n / 10) + [DIGIT_ZERO + n % 10]
  }

  lemma {:induction false} DecimalInjective(a: nat, b: nat)
    requires Decimal(a) == Decimal(b)
    ensures a == b
  {
    var s, t := Decimal(a), Decimal(b);
    assert s[|s| - 1] == t[|t| - 1];
    if a >= 10 || b >= 10 {
      assert |Decimal(a / 10)| > 0 && |Decimal(b / 10)| > 0;
      assert s[..|s| - 1] == t[..|t| - 1];
      if a >= 10 && b >= 10 {
        assert s[..|s| - 1] == Decimal(a / 10);
        assert t[..|t| - 1] == Decimal(b / 10);
        DecimalInjective(a / 10, b / 10);
      }
    }
  }

  /** The number that a string of decimal digits denotes. */
  function DecimalValue(s: seq<int>): int {
    if s == [] then 0 else DecimalValue(s[..|s| - 1]) * 10 + (s[|s| - 1] - DIGIT_ZERO)
  }

  predicate AllDigits(s: seq<int>) {
    forall i :: 0 <= i < |s| ==> DIGIT_ZERO <= s[i] < DIGIT_ZERO + 10
  }

  const PLUS_SIGN: int := 43

  /** `parse::<u32>` and `parse::<u64>`: an optional plus sign, at least one digit, and a value that
      does not exceed the maximum. */
  function ParseUnsigned(s: seq<int>, max: nat): Option<nat> {
    var digits := if |s| > 1 && s[0] == PLUS_SIGN then s[1..] else s;
    if digits == [] || !AllDigits(digits) then None
    else
      DigitsAreNatural(digits);
      if DecimalValue(digits) > max then None else Some(DecimalValue(digits))
  }

  lemma {:induction false} DigitsAreNatural(s: seq<int>)
    requires AllDigits(s)
    ensures DecimalValue(s) >= 0
  {
    if s != [] {
      DigitsAreNatural(s[..|s| - 1]);
    }
  }

  lemma {:induction false} DecimalDenotes(n: nat)
    ensures DecimalValue(Decimal(n)) == n
  {
    var s := Decimal(n);
    if n >= 10 {
      DecimalDenotes(n / 10);
      assert s[..|s| - 1] == Decimal(n / 10);
    } else {
      assert s[..0] == [];
    }
  }

  /** Reading undoes writing for every number up to the maximum, and rejects all others. */
  lemma ParseUndoesDecimal(n: nat, max: nat)
    ensures ParseUnsigned(Decimal(n), max) == if n <= max then Some(n) else None
  {
    DecimalDenotes(n);
    assert Decimal(n)[0] != PLUS_SIGN;
  }
}
