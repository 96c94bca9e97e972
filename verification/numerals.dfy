/** The `number` lexeme of src/lib.rs: an optional `-` followed by a run of
    ASCII digits. This module holds the grammar-level definitions the parser
    is stated against, and the canonical decimal writing used by the
    proof-only serialiser. */
module Numerals {
  import opened Values

  predicate IsDigit(b: byte)
  {
    Zero <= b <= Nine
  }

  predicate AllDigits(s: seq<byte>)
  {
    forall i :: 0 <= i < |s| ==> IsDigit(s[i])
  }

  predicate StartsWithDigit(s: seq<byte>)
  {
    |s| > 0 && IsDigit(s[0])
  }

  /** The numeric value of a run of decimal digits, most significant first:
      what `str::parse` makes of the run. It is zero exactly when every digit
      is `0`. */
  function DigitsValue(ds: seq<byte>): (v: nat)
    requires AllDigits(ds)
    ensures v == 0 <==> forall i :: 0 <= i < |ds| ==> ds[i] == Zero
  {
    if |ds| == 0 then 0
    else DigitsValue(ds[..|ds| - 1]) * 10 + (ds[|ds| - 1] - Zero) as int
  }

  /** A complete number lexeme: at most one `-`, then one or more digits. */
  predicate IsNumeral(t: seq<byte>)
  {
    && |t| > 0
    && if t[0] == Minus then |t| > 1 && AllDigits(t[1..]) else AllDigits(t)
  }

  /** The value a number lexeme denotes: its digits' value, negated after a
      `-`. */
  function NumeralValue(t: seq<byte>): int
    requires IsNumeral(t)
  {
    if t[0] == Minus then -(DigitsValue(t[1..]) as int) else DigitsValue(t)
  }

  /** A run of zeros is a digit run of value 0. */
  lemma {:induction false} ZerosValue(z: seq<byte>)
    requires forall i :: 0 <= i < |z| ==> z[i] == Zero
    ensures AllDigits(z) && DigitsValue(z) == 0
  {
    if |z| > 0 {
      ZerosValue(z[..|z| - 1]);
    }
  }

  /** Leading zeros contribute nothing to a digit run's value. */
  lemma {:induction false} LeadingZerosValue(z: seq<byte>, ds: seq<byte>)
    requires forall i :: 0 <= i < |z| ==> z[i] == Zero
    requires AllDigits(ds)
    ensures AllDigits(z + ds) && DigitsValue(z + ds) == DigitsValue(ds)
  {
    ZerosValue(z);
    if |ds| == 0 {
      assert z + ds == z;
    } else {
      var init := ds[..|ds| - 1];
      assert (z + ds)[..|z + ds| - 1] == z + init;
      LeadingZerosValue(z, init);
    }
  }

  /** The canonical decimal digits of a natural number: no leading zeros,
      and `0` for zero. */
  function DecimalDigits(n: nat): (ds: seq<byte>)
    ensures |ds| > 0 && AllDigits(ds)
  {
    if n < 10 then [Zero + n as byte]
    else DecimalDigits(n / 10) + [Zero + (n % 10) as byte]
  }

  /** The canonical number lexeme of an integer. */
  function Numeral(i: int): (t: seq<byte>)
  {
    if i < 0 then [Minus] + DecimalDigits(-i) else DecimalDigits(i)
  }

  /** Reading back the canonical digits gives the number. */
  lemma {:induction false} DigitsValueOfDecimal(n: nat)
    ensures DigitsValue(DecimalDigits(n)) == n
  {
    if n >= 10 {
      var ds := DecimalDigits(n);
      assert ds[..|ds| - 1] == DecimalDigits(n / 10);
      DigitsValueOfDecimal(n / 10);
    }
  }

  /** The canonical lexeme of `i` is a number lexeme that denotes `i`. */
  lemma NumeralOfInt(i: int)
    ensures IsNumeral(Numeral(i)) && NumeralValue(Numeral(i)) == i
  {
    if i < 0 {
      var t := Numeral(i);
      assert t[1..] == DecimalDigits(-i);
      DigitsValueOfDecimal(-i);
    } else {
      DigitsValueOfDecimal(i);
    }
  }
}
