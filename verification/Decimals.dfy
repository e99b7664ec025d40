/** Decimal numbers as text: what %d prints and strconv.ParseInt reads. */
module Decimals {
  import opened Wrappers

  function Digit(d: nat): (c: char)
    requires d < 10
    ensures '0' <= c <= '9' && DigitValue(c) == d
  {
    '0' + d as char
  }

  function DigitValue(c: char): nat
    requires '0' <= c <= '9'
  {
    (c - '0') as nat
  }

  predicate AllDigits(s: string) {
    forall i :: 0 <= i < |s| ==> '0' <= s[i] <= '9'
  }

  function Decimal(n: nat): (s: string)
    ensures s != "" && AllDigits(s)
  {
    if n < 10 then [Digit(n)] else Decimal(n / 10) + [Digit(n % 10)]
  }

  function DigitsValue(s: string): nat
    requires AllDigits(s)
  {
    if s == "" then 0 else 10 * DigitsValue(s[..|s| - 1]) + DigitValue(s[|s| - 1])
  }

  lemma {:induction false} DecimalReads(n: nat)
    ensures DigitsValue(Decimal(n)) == n
  {
    var s := Decimal(n);
    if n >= 10 {
      DecimalReads(n / 10);
      assert s[..|s| - 1] == Decimal(n / 10);
    } else {
      assert s[..0] == "";
    }
  }

  // A length as a decoder reads it: digits only.
  function ParseNat(s: string): Option<nat> {
    if s != "" && AllDigits(s) then Some(DigitsValue(s)) else None
  }

  const MIN_INT64 := -0x8000_0000_0000_0000
  const MAX_INT64 := 0x7fff_ffff_ffff_ffff

  // strconv.ParseInt(s, 10, 64), and strconv.Atoi where int has 64 bits.
  function ParseInt(s: string): Option<int> {
    if s == "" then None
    else if s[0] == '-' then Signed(true, s[1..])
    else if s[0] == '+' then Signed(false, s[1..])
    else Signed(false, s)
  }

  function Signed(negative: bool, digits: string): Option<int> {
    match ParseNat(digits)
    case None => None
    case Some(n) =>
      var v := (if negative then -1 else 1) * n;
      if MIN_INT64 <= v <= MAX_INT64 then Some(v) else None
  }

  function FormatInt(v: int): (s: string)
    ensures s != ""
    ensures forall i :: 0 <= i < |s| ==> s[i] == '-' || '0' <= s[i] <= '9'
  {
    if v < 0 then "-" + Decimal(-v) else Decimal(v)
  }

  lemma FormatReads(v: int)
    requires MIN_INT64 <= v <= MAX_INT64
    ensures ParseInt(FormatInt(v)) == Some(v)
  {
    if v < 0 {
      DecimalReads(-v);
      assert FormatInt(v)[1..] == Decimal(-v);
    } else {
      DecimalReads(v);
      assert '0' <= Decimal(v)[0] <= '9';
    }
  }
}
