/** `kebab_to_title_case`: the display form of a book identifier. */
module TitleCase {
  import opened Text

  /** ASCII upper-casing of one character; other characters are unchanged. */
  function UpperAscii(c: char): (u: char)
  {
    if 'a' <= c <= 'z' then (c as int - 32) as char else c
  }

  /** ASCII lower-casing of one character; other characters are unchanged. */
  function LowerAscii(c: char): (l: char)
  {
    if 'A' <= c <= 'Z' then (c as int + 32) as char else c
  }

  /** A word with its first character upper-cased; the empty word stays
      empty, every later character is kept, and no space is introduced. */
  function Capitalize(word: string): (r: string)
    ensures |r| == |word|
    ensures 0 < |word| ==> r[0] == UpperAscii(word[0])
    ensures forall i :: 0 < i < |word| ==> r[i] == word[i]
    ensures ' ' !in word ==> ' ' !in r
  {
    if |word| == 0 then "" else [UpperAscii(word[0])] + word[1..]
  }

  function CapitalizeAll(words: seq<string>): (r: seq<string>)
    ensures |r| == |words|
  {
    if |words| == 0 then [] else [Capitalize(words[0])] + CapitalizeAll(words[1..])
  }

  lemma {:induction false} CapitalizeAllAt(words: seq<string>, i: nat)
    requires i < |words|
    ensures CapitalizeAll(words)[i] == Capitalize(words[i])
    decreases i
  {
    if i > 0 {
      CapitalizeAllAt(words[1..], i - 1);
    }
  }

  /** Split on '-', capitalize every segment, join with ' '. */
  function KebabToTitleCase(s: string): (r: string)
    ensures |r| == |s|
    ensures forall i :: 0 <= i < |s| ==> r[i] == ScanChar(s, i, true)
  {
    JoinFromStart(s);
    ScanCharwise(s, true);
    Join(CapitalizeAll(Split(s, '-')), ' ')
  }

  /** Whether position `i` of `s` starts a segment; `atStart` says so for `i == 0`. */
  predicate StartsSegment(s: string, i: nat, atStart: bool)
    requires i < |s|
  {
    if i == 0 then atStart else s[i - 1] == '-'
  }

  /** What the title-case transform writes at position `i`, read off the
      input alone: a hyphen becomes a space, the first character of a
      segment is upper-cased, every other character is copied. */
  function ScanChar(s: string, i: nat, atStart: bool): (c: char)
    requires i < |s|
  {
    if s[i] == '-' then ' '
    else if StartsSegment(s, i, atStart) then UpperAscii(s[i])
    else s[i]
  }

  /** A left-to-right scan that remembers whether it is at a segment start. */
  function Scan(s: string, atStart: bool): (r: string)
  {
    if |s| == 0 then ""
    else if s[0] == '-' then " " + Scan(s[1..], true)
    else [if atStart then UpperAscii(s[0]) else s[0]] + Scan(s[1..], false)
  }

  lemma {:induction false} ScanCharwise(s: string, atStart: bool)
    ensures |Scan(s, atStart)| == |s|
    ensures forall i :: 0 <= i < |s| ==> Scan(s, atStart)[i] == ScanChar(s, i, atStart)
    decreases |s|
  {
    if |s| > 0 {
      var tail := s[1..];
      var flag := s[0] == '-';
      ScanCharwise(tail, flag);
      forall i | 0 <= i < |s|
        ensures Scan(s, atStart)[i] == ScanChar(s, i, atStart)
      {
        if i > 0 {
          assert Scan(s, atStart)[i] == Scan(tail, flag)[i - 1];
          assert tail[i - 1] == s[i];
          assert StartsSegment(tail, i - 1, flag) == StartsSegment(s, i, atStart);
        }
      }
    }
  }

  /** Joining `x + parts[0]` with the capitalized remaining parts equals
      `x` followed by the scan of `s` from the middle of a segment. */
  lemma {:induction false} JoinMidSegment(x: string, s: string)
    ensures var parts := Split(s, '-');
      Join([x + parts[0]] + CapitalizeAll(parts[1..]), ' ') == x + Scan(s, false)
    decreases |s|, 1
  {
    var parts := Split(s, '-');
    if |s| == 0 {
      assert parts == [""];
      assert x + "" == x;
    } else if s[0] == '-' {
      var rest := Split(s[1..], '-');
      assert parts == [""] + rest;
      assert parts[1..] == rest;
      JoinFromStart(s[1..]);
      var ws := [x] + CapitalizeAll(rest);
      assert ws[1..] == CapitalizeAll(rest);
      assert x + parts[0] == x;
      assert Join(ws, ' ') == x + [' '] + Join(CapitalizeAll(rest), ' ');
      assert x + Scan(s, false) == x + ([' '] + Scan(s[1..], true));
    } else {
      var rest := Split(s[1..], '-');
      assert parts[0] == [s[0]] + rest[0];
      assert parts[1..] == rest[1..];
      JoinMidSegment(x + [s[0]], s[1..]);
      assert x + parts[0] == (x + [s[0]]) + rest[0];
      assert x + Scan(s, false) == (x + [s[0]]) + Scan(s[1..], false);
    }
  }

  /** The split-capitalize-join pipeline equals the scan from a segment start. */
  lemma {:induction false} JoinFromStart(s: string)
    ensures Join(CapitalizeAll(Split(s, '-')), ' ') == Scan(s, true)
    decreases |s|, 0
  {
    var parts := Split(s, '-');
    if |s| == 0 {
      assert parts == [""];
    } else if s[0] == '-' {
      var rest := Split(s[1..], '-');
      assert parts == [""] + rest;
      assert parts[1..] == rest;
      JoinFromStart(s[1..]);
      var ws := CapitalizeAll(parts);
      assert ws == [""] + CapitalizeAll(rest);
      assert ws[1..] == CapitalizeAll(rest);
    } else {
      var rest := Split(s[1..], '-');
      var up := [UpperAscii(s[0])];
      assert parts[0] == [s[0]] + rest[0];
      assert parts[1..] == rest[1..];
      assert Capitalize(parts[0]) == up + rest[0];
      assert CapitalizeAll(parts) == [up + rest[0]] + CapitalizeAll(rest[1..]);
      JoinMidSegment(up, s[1..]);
    }
  }

  /** When the identifier holds no space, the space-separated words of the
      title are exactly the capitalized hyphen-separated segments; in
      particular there are as many words as segments. */
  lemma {:induction false} WordsAreCapitalizedSegments(s: string)
    requires ' ' !in s
    ensures Split(KebabToTitleCase(s), ' ') == CapitalizeAll(Split(s, '-'))
    ensures |Split(KebabToTitleCase(s), ' ')| == |Split(s, '-')|
    ensures Count(KebabToTitleCase(s), ' ') == Count(s, '-')
  {
    var parts := Split(s, '-');
    var words := CapitalizeAll(parts);
    forall i | 0 <= i < |words|
      ensures ' ' !in words[i]
    {
      assert ' ' !in parts[i];
      CapitalizeAllAt(parts, i);
      if |parts[i]| > 0 {
        assert words[i] == [UpperAscii(parts[i][0])] + parts[i][1..];
        assert ' ' !in parts[i][1..];
      }
    }
    JoinFromStart(s);
    ScanCharwise(s, true);
    SplitJoin(words, ' ');
  }

  /** Hyphen-separated lower-case ASCII letters: the shape of a book identifier. */
  predicate IsKebab(s: string)
  {
    forall i :: 0 <= i < |s| ==> s[i] == '-' || 'a' <= s[i] <= 'z'
  }

  /** The inverse direction: spaces back to hyphens, letters back to lower case. */
  function TitleToKebab(t: string): (r: string)
    ensures |r| == |t|
    ensures forall i :: 0 <= i < |t| ==> r[i] == (if t[i] == ' ' then '-' else LowerAscii(t[i]))
  {
    if |t| == 0 then ""
    else [if t[0] == ' ' then '-' else LowerAscii(t[0])] + TitleToKebab(t[1..])
  }

  /** Title-casing a book identifier loses nothing: turning the title back
      into kebab case restores the identifier. Doubled, leading and trailing
      hyphens are allowed. The second clause is the first with the identifier
      substituted back in: re-title-casing the recovered identifier gives the
      same title. */
  lemma KebabRoundTrip(s: string)
    requires IsKebab(s)
    ensures TitleToKebab(KebabToTitleCase(s)) == s
    ensures KebabToTitleCase(TitleToKebab(KebabToTitleCase(s))) == KebabToTitleCase(s)
  {
    var t := KebabToTitleCase(s);
    forall i | 0 <= i < |s|
      ensures TitleToKebab(t)[i] == s[i]
    {
      assert t[i] == ScanChar(s, i, true);
    }
  }

  /** A doubled hyphen is an empty segment, which becomes an empty word:
      the result has a doubled space where the input has a doubled hyphen. */
  lemma DoubledHyphenGivesDoubledSpace(s: string, i: nat)
    requires i + 1 < |s| && s[i] == '-' && s[i + 1] == '-'
    ensures KebabToTitleCase(s)[i..i + 2] == "  "
  {
  }
}
