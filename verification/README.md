# Patina API example — reference resolution and navigation

This project models the decision logic of the Patina web example
(`example/api/src/main.rs`), a read-only browser over a Bible corpus. The
corpus is addressed as book → chapter → verse. The model covers:

- `kebab_to_title_case`, the display form of a book identifier
  (`title_case.dfy`). It uses the split/join semantics of Rust's `str::split`
  and `join` (`text.dfy`).
- The boundary parsing of the optional chapter and verse segments in
  `get_verse`: an empty segment is absent, and anything else must be a `u32`
  (`numerals.dfy`, `segment.dfy`). Chapter is checked before verse, and
  neither error reaches the corpus.
- The data each page is built from (`browser.dfy`). `list` gives one link per
  book. `get_book` and `get_chapter` give one position-numbered link per
  chapter or verse. A missing book or chapter gives an empty listing. `get_verse`
  gives the looked-up text, or the placeholder `Reference not found.`, plus the
  shown chapter and verse.

The corpus (the `patina` crate) is the `Corpus` datatype. It holds the ordered
book list and three total functions: chapters of a book, verses of a chapter,
and reference search. Nothing is assumed about what they return. Chapter and
verse contents are type parameters, because the handlers only use their
positions. Each page is modelled as a datatype holding the values its HTML
template is filled with.

Three behaviours of the code are worth stating explicitly:

- A chapter or verse segment may be any `u32`, including `0`; nothing
  demands a positive number (`Segment.SegmentExamples`).
- Chapter and verse listings are one link per element of the corpus's list,
  numbered `i + 1` by position; no number is stored in the corpus.
- A malformed chapter in `/{book}/{chapter}` is rejected by the web
  framework's `u32` path extractor (line 106), not by this file, so that
  rejection is not modelled.

## Model

| member | source | states |
|---|---|---|
| Text.Split | example/api/src/main.rs:186 | splitting on '-' always gives at least one piece; there is one more piece than there are separators; no piece holds the separator; every piece's characters come from the input |
| Text.JoinSplit | example/api/src/main.rs:186-195 | joining the pieces of a split with the same separator restores the input, so the split loses nothing |
| Text.JoinShape | example/api/src/main.rs:195 | `join(" ")` starts with the first word and, when no word holds a space, contains exactly one space fewer than there are words, in total (one per gap follows from Text.SplitJoin) |
| Text.SplitJoin | example/api/src/main.rs:186-195 | splitting a join of separator-free pieces gives the same pieces back |
| TitleCase.Capitalize | example/api/src/main.rs:187-193 | the per-segment step keeps the length, upper-cases only the first character, copies the rest, maps the empty segment to the empty word and introduces no space |
| TitleCase.CapitalizeAllAt | example/api/src/main.rs:186-194 | the mapped sequence holds, at each position, the capitalized segment from that position of the split |
| TitleCase.KebabToTitleCase | example/api/src/main.rs:185-196 | total and length-preserving. Each character is decided by the input alone: '-' becomes ' ', a segment's first character is upper-cased, and every other character is copied |
| TitleCase.JoinFromStart | example/api/src/main.rs:185-196 | the split/capitalize/join pipeline equals one left-to-right scan that upper-cases the character after each hyphen and at the start |
| TitleCase.WordsAreCapitalizedSegments | example/api/src/main.rs:185-195 | for an identifier without spaces, the title's space-separated words are exactly the capitalized hyphen segments, so there are as many words as segments and as many spaces as hyphens |
| TitleCase.DoubledHyphenGivesDoubledSpace | example/api/src/main.rs:188-192 | an empty segment between two hyphens becomes an empty word, giving a doubled space rather than an error |
| TitleCase.KebabRoundTrip | example/api/src/main.rs:185-196 | on lower-case kebab identifiers, mapping the title back (spaces to hyphens, lower-casing) restores the identifier, and title-casing is idempotent under that round trip |
| Numerals.ParseU32 | example/api/src/main.rs:147-148 | `u32::from_str`: a string of ASCII digits, optionally after one '+', is accepted exactly when its value is below 2^32, and the result is that value; any accepted string has this shape, so the empty string, a lone '+', a '-' sign or any other character is rejected |
| Numerals.Decimal | example/api/src/main.rs:166-167 | the rendering of a number is a non-empty digit string that denotes the number and has no leading zero |
| Numerals.ParseDecimal | example/api/src/main.rs:166-167 | parsing the rendering of any 32-bit number gives that number back |
| Numerals.CanonicalDigitsUnique | example/api/src/main.rs:166-167 | a digit string with no leading zero is the rendering of the number it denotes, so the rendering is the only canonical form |
| Segment.ParseSegment | example/api/src/main.rs:144-160 | a segment is absent exactly when it is empty. It is present exactly when `u32::from_str` accepts it, carrying that value below 2^32. Otherwise it is malformed |
| Segment.Display | example/api/src/main.rs:166-167 | an absent number is shown as "" and only then; a present number is shown as the canonical digit string (no sign, no leading zero) that denotes it, which reads back as the same number |
| Segment.DisplayOfParsed | example/api/src/main.rs:144-167 | a present segment is shown in canonical form and reads back the same; shown text differs from the segment only when the segment had a '+' or a leading zero |
| Segment.SegmentExamples | example/api/src/main.rs:144-160 | "0" is accepted as zero. "" is absent. "+", "abc" and 2^32 are malformed |
| Browser.ListBooks | example/api/src/main.rs:45-50 | one link per corpus book in corpus order, each labelled with the book's title-case form |
| Browser.GetBook | example/api/src/main.rs:72-84 | an unknown book gives no links. Otherwise there is one link per chapter, in order, to the requested book, with the link at position i numbered i+1; the numbers are exactly 1..count |
| Browser.GetChapter | example/api/src/main.rs:107-120 | an unknown book or chapter gives no links. Otherwise there is one link per verse, each to the requested book and chapter unchanged, with the link at position i numbered i+1 |
| Browser.ParseAddress | example/api/src/main.rs:144-160 | a malformed chapter gives "Invalid chapter format" whatever the verse is. A well-formed chapter with a malformed verse gives "Invalid verse format". Otherwise the result is the two parsed optionals |
| Browser.GetVerse | example/api/src/main.rs:141-167 | errors as in ParseAddress. Otherwise the text is the search result for (book, chapter?, verse?), or "Reference not found." when there is none. The shown chapter and verse are the canonical renderings of the parsed numbers ("007" and "+7" are shown as "7"), empty exactly when their segments are |
| Browser.VerseDependsOnlyOnLookup | example/api/src/main.rs:144-164 | the response depends on the corpus only through the single search for the parsed reference, and not at all when a segment is malformed |
| Browser.VerseWithoutChapterIsForwarded | example/api/src/main.rs:162-164 | a verse with an empty chapter segment is searched as (None, Some(verse)), not rejected |
| Browser.VerseLinkResolves | example/api/src/main.rs:117-164 | following a verse link of a chapter page searches for exactly that chapter and verse and shows those numbers |

## Left out

- Server bootstrap, route registration, the async runtime and the `HttpResponse` builders and content types (lines 1-16 and the response builders) are transport plumbing.
- The `STYLE` sheet, the HTML `format!` templates and the `"<br/>"` joins of the link lists are markup. Each page is modelled as the data filled into its template.
- The `patina` corpus (`list_books`, `list_chapters`, `list_verses`, `search_by_reference`) is a separate crate. It is a parameter with no assumed behaviour. Claims that depend on its contents (an out-of-range chapter has no verses, a book with zero chapters finds nothing) cannot be stated here.
- `Patina::new()` per request is the construction of that parameter and is not modelled.
- The `u32` extraction of the chapter in `get_chapter` (line 106) is done by the web framework. `GetChapter` takes an already-extracted `U32`.
- TitleCase.Capitalize, TitleCase.KebabToTitleCase: upper-case ASCII letters only and keep the length. Full Unicode case mapping is outside this model; Rust's `char::to_uppercase` also maps non-ASCII letters and can expand one character into several ("ß" becomes "SS").
- Browser.GetBook, Browser.GetChapter: chapter and verse link numbers are unbounded naturals. The source computes `i + 1` in `usize`, which cannot overflow for any listing that fits in memory. A verse number is read back as a `u32` only below 2^32, so `Browser.VerseLinkResolves` requires `link.verse < U32_LIMIT`.
