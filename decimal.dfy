/**
 * Decimal numerals in ASCII: the text `f"{n}"` produces for a natural number, and
 * the parse that reads one back.
 */
module Decimal {
  import opened Basics

  const ZeroDigit: byte := 0x30

  predicate IsDigit(b: byte)
  {
    ZeroDigit <= b <= ZeroDigit + 9
  }

  predicate AllDigits(s: seq<byte>)
  {
    forall i | 0 <= i < |s| :: IsDigit(s[i])
  }

  /** The digits of `n`, most significant first, without leading zeros. */
  function Format(n: nat): (s: seq<byte>)
    ensures |s| >= 1 && AllDigits(s)
    ensures s[0] == ZeroDigit ==> n == 0
  {
    if n < 10 then [ZeroDigit + n as byte]
    else Format(n / 10) + [ZeroDigit + (n % 10) as byte]
  }

  /** The number a string of digits denotes. Leading zeros are allowed and change
      nothing, as in `float("007") == 7.0`. */
  function Value(s: seq<byte>): (v: nat)
    requires AllDigits(s)
    ensures |s| > 0 && s[0] == ZeroDigit ==> v == Value(s[1..])
  {
    if s == [] then 0
    else
      var init := s[..|s| - 1];
      assert |s| >= 2 ==> init[1..] == s[1..][..|s| - 2];
      Value(init) * 10 + (s[|s| - 1] - ZeroDigit) as nat
  }

  /** Reads a natural number: one or more ASCII digits and nothing else. */
  function Parse(s: seq<byte>): (r: Option<nat>)
    ensures r.Some? <==> |s| > 0 && AllDigits(s)
  {
    if |s| > 0 && AllDigits(s) then Some(Value(s)) else None
  }

  lemma {:induction false} ValueFormat(n: nat)
    ensures Value(Format(n)) == n
    decreases n
  {
    if n >= 10 {
      var s := Format(n);
      assert s[..|s| - 1] == Format(n / 10);
      ValueFormat(n / 10);
    }
  }

  /** Parsing a formatted number gives the number back. */
  lemma ParseFormat(n: nat)
    ensures Parse(Format(n)) == Some(n)
  {
    ValueFormat(n);
  }
}
