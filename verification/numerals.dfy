/** Decimal text for unsigned 32-bit numbers: Rust's `u32::from_str` (what
    `str::parse::<u32>` calls) and `u32::to_string`. */
module Numerals {
  import opened Wrappers

  const U32_LIMIT: nat := 0x1_0000_0000

  /** The values of Rust's `u32`. */
  type U32 = n: nat | n < U32_LIMIT

  predicate IsDigit(c: char)
  {
    '0' <= c <= '9'
  }

  predicate AllDigits(s: string)
  {
    forall i :: 0 <= i < |s| ==> IsDigit(s[i])
  }

  function DigitValue(c: char): (d: nat)
    requires IsDigit(c)
  {
    c as int - '0' as int
  }

  function DigitChar(d: nat): (c: char)
    requires d < 10
    ensures IsDigit(c) && DigitValue(c) == d
  {
    (d + '0' as int) as char
  }

  /** The number a digit string denotes, most significant digit first. */
  function DigitsValue(s: string): (v: nat)
    requires AllDigits(s)
    decreases |s|
  {
    if |s| == 0 then 0 else 10 * DigitsValue(s[..|s| - 1]) + DigitValue(s[|s| - 1])
  }

  /** `u32::from_str`: an optional leading '+', then one or more ASCII digits
      whose value fits in 32 bits. Leading zeros are allowed; "", "+", a
      sign '-', any other character, and an overflowing value are errors. */
  function ParseU32(s: string): (r: Option<U32>)
    ensures r.Some? ==> 0 < |s|
    ensures r.Some? ==>
      var digits := if s[0] == '+' then s[1..] else s;
      0 < |digits| && AllDigits(digits) && DigitsValue(digits) == r.value
    ensures 0 < |s| && AllDigits(s) ==>
      r == if DigitsValue(s) < U32_LIMIT then Some(DigitsValue(s)) else None
    ensures 1 < |s| && s[0] == '+' && AllDigits(s[1..]) ==>
      r == if DigitsValue(s[1..]) < U32_LIMIT then Some(DigitsValue(s[1..])) else None
    ensures (exists i :: 0 < i < |s| && !IsDigit(s[i])) ==> r.None?
    ensures 0 < |s| && s[0] != '+' && !IsDigit(s[0]) ==> r.None?
  {
    var digits := if 0 < |s| && s[0] == '+' then s[1..] else s;
    if |digits| == 0 || !AllDigits(digits) then None
    else
      var v := DigitsValue(digits);
      if v < U32_LIMIT then Some(v) else None
  }

  /** `to_string`: the shortest decimal rendering, with no sign and no
      leading zero, that denotes `n`. */
  function Decimal(n: nat): (s: string)
    ensures 0 < |s| && AllDigits(s)
    ensures DigitsValue(s) == n
    ensures s[0] == '0' ==> s == "0"
    decreases n
  {
    if n < 10 then [DigitChar(n)]
    else
      var front := Decimal(n / 10);
      var s := front + [DigitChar(n % 10)];
      assert s[..|s| - 1] == front;
      s
  }

  /** Parsing the rendering of a 32-bit number gives the number back. */
  lemma ParseDecimal(n: U32)
    ensures ParseU32(Decimal(n)) == Some(n)
  {
  }

  /** Two canonical renderings (no sign, no leading zero) that denote the
      same number are the same string; so `Decimal` is the only such
      rendering, and a parse that succeeds on one pins it down. */
  lemma {:induction false} CanonicalDigitsUnique(s: string)
    requires 0 < |s| && AllDigits(s) && (s[0] == '0' ==> s == "0")
    ensures s == Decimal(DigitsValue(s))
    decreases |s|
  {
    var v := DigitsValue(s);
    if |s| == 1 {
      assert s[..0] == [];
      assert DigitsValue(s[..0]) == 0;
      assert v == 10 * DigitsValue(s[..0]) + DigitValue(s[0]);
    } else {
      var front := s[..|s| - 1];
      assert front[0] == s[0];
      CanonicalDigitsUnique(front);
      NonZeroLeadIsLarge(front);
      assert v / 10 == DigitsValue(front);
      assert v % 10 == DigitValue(s[|s| - 1]);
      assert s == front + [s[|s| - 1]];
    }
  }

  /** A multi-digit canonical string denotes at least 10. */
  lemma {:induction false} NonZeroLeadIsLarge(s: string)
    requires 0 < |s| && AllDigits(s) && (s[0] == '0' ==> s == "0")
    ensures |s| > 1 ==> DigitsValue(s) >= 10
    ensures |s| == 1 && s[0] != '0' ==> DigitsValue(s) >= 1
    decreases |s|
  {
    if |s| > 1 {
      var front := s[..|s| - 1];
      assert front[0] == s[0];
      NonZeroLeadIsLarge(front);
    }
  }
}
