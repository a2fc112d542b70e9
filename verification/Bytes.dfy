/** Bytes and decimal numerals, shared by the codecs. */
module Bytes {

  type Byte = b: int | 0 <= b < 256

  const ZERO: Byte := 0x30
  const NINE: Byte := 0x39

  predicate IsDigit(b: Byte) {
    ZERO <= b <= NINE
  }

  predicate AllDigits(s: seq<Byte>) {
    forall i :: 0 <= i < |s| ==> IsDigit(s[i])
  }

  /** Value of a run of decimal digits, most significant first. */
  function DecimalValue(s: seq<Byte>): nat
    requires AllDigits(s)
  {
    if s == [] then 0
    else
      assert IsDigit(s[|s| - 1]);
      DecimalValue(s[..|s| - 1]) * 10 + (s[|s| - 1] - ZERO)
  }

  /** `String(n)` */
  function Decimal(n: nat): (s: seq<Byte>)
    ensures |s| >= 1 && AllDigits(s)
  {
    if n < 10 then [ZERO + n] else Decimal(n / 10) + [ZERO + n % 10]
  }

  lemma {:induction false} DecimalRoundTrip(n: nat)
    ensures DecimalValue(Decimal(n)) == n
  {
    if n < 10 {
      assert Decimal(n)[..0] == [];
    } else {
      DecimalRoundTrip(n / 10);
      assert Decimal(n)[..|Decimal(n)| - 1] == Decimal(n / 10);
    }
  }

  /** A prefix of a numeral is worth no more than the numeral. */
  lemma {:induction false} PrefixValue(s: seq<Byte>, i: nat)
    requires i <= |s| && AllDigits(s)
    ensures DecimalValue(s[..i]) <= DecimalValue(s)
    decreases |s|
  {
    if i == |s| {
      assert s[..i] == s;
    } else {
      var p := s[..|s| - 1];
      assert p[..i] == s[..i];
      PrefixValue(p, i);
    }
  }

  lemma {:induction false} DecimalLengthMono(a: nat, b: nat)
    requires a <= b
    ensures |Decimal(a)| <= |Decimal(b)|
    decreases b
  {
    if b >= 10 && a >= 10 {
      DecimalLengthMono(a / 10, b / 10);
    }
  }

  lemma {:induction false} DecimalLengthBound(n: nat)
    ensures |Decimal(n)| <= n / 2 + 1
  {
    if n >= 10 {
      DecimalLengthBound(n / 10);
    }
  }
}
