/** The chapter and verse path segments of a verse address: an empty
    segment means "not given", anything else must be a `u32`. */
module Segment {
  import opened Wrappers
  import opened Numerals

  /** The outcome of reading one optional numeric segment. */
  datatype Parsed = Absent | Present(n: U32) | Malformed {

    /** The optional number handed on to the corpus lookup. */
    function AsOption(): Option<U32>
      requires !Malformed?
    {
      if Present? then Some(n) else None
    }
  }

  /** An empty segment is absent without any parse attempt; a non-empty one
      is present when `u32::from_str` accepts it and malformed otherwise.
      Zero is accepted: nothing demands a positive number. */
  function ParseSegment(s: string): (p: Parsed)
    ensures p.Absent? <==> s == ""
    ensures p.Present? <==> ParseU32(s).Some?
    ensures p.Present? ==> p.n == ParseU32(s).value
  {
    if |s| == 0 then Absent
    else
      match ParseU32(s)
      case Some(n) => Present(n)
      case None => Malformed
  }

  /** How the page shows an optional number: empty when absent, otherwise
      the canonical decimal digits (no sign, no leading zero) of the number.
      The shown text reads back as the same optional number. */
  function Display(o: Option<U32>): (text: string)
    ensures text == "" <==> o.None?
    ensures o.Some? ==> AllDigits(text) && DigitsValue(text) == o.value && (text[0] == '0' ==> text == "0")
    ensures !ParseSegment(text).Malformed? && ParseSegment(text).AsOption() == o
  {
    match o
    case None => ""
    case Some(n) =>
      ParseDecimal(n);
      Decimal(n)
  }

  /** A segment that reads as a number is displayed in its canonical form,
      which reads as the same number ("007" and "+7" are shown as "7"). */
  lemma DisplayOfParsed(s: string)
    requires ParseSegment(s).Present?
    ensures ParseSegment(Display(ParseSegment(s).AsOption())) == ParseSegment(s)
    ensures s != Display(ParseSegment(s).AsOption()) ==> s[0] == '+' || (|s| > 1 && s[0] == '0')
  {
    var n := ParseSegment(s).n;
    var digits := if s[0] == '+' then s[1..] else s;
    if s[0] != '+' && !(|s| > 1 && s[0] == '0') {
      assert digits == s;
      CanonicalDigitsUnique(s);
    }
  }

  /** Zero, an empty segment and a sign-only segment. */
  lemma SegmentExamples()
    ensures ParseSegment("0") == Present(0)
    ensures ParseSegment("") == Absent
    ensures ParseSegment("+") == Malformed
    ensures ParseSegment("abc") == Malformed
    ensures ParseSegment("4294967296") == Malformed
  {
    assert !IsDigit('a');
    assert DigitsValue("4") == 4;
    assert "42"[..1] == "4";
    assert DigitsValue("42") == 42;
    assert "429"[..2] == "42";
    assert DigitsValue("429") == 429;
    assert "4294"[..3] == "429";
    assert DigitsValue("4294") == 4294;
    assert "42949"[..4] == "4294";
    assert DigitsValue("42949") == 42949;
    assert "429496"[..5] == "42949";
    assert DigitsValue("429496") == 429496;
    assert "4294967"[..6] == "429496";
    assert DigitsValue("4294967") == 4294967;
    assert "42949672"[..7] == "4294967";
    assert DigitsValue("42949672") == 42949672;
    assert "429496729"[..8] == "42949672";
    assert DigitsValue("429496729") == 429496729;
    assert "4294967296"[..9] == "429496729";
    assert DigitsValue("4294967296") == 4294967296;
  }
}
