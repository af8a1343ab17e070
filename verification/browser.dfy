/** The four page handlers of the API example, reduced to the data each page
    is built from. The corpus is a parameter with no assumed behaviour. */
module Browser {
  import opened Wrappers
  import opened Numerals
  import opened Segment
  import opened TitleCase

  /** The read interface of the corpus: the ordered book identifiers, the
      chapters of a book, the verses of a chapter, and free-form reference
      search. Chapter and verse contents are opaque (`C`, `V`): the handlers
      only use their positions. */
  datatype Corpus<C, V> = Corpus(
    books: seq<string>,
    chapters: string -> Option<seq<C>>,
    verses: (string, U32) -> Option<seq<V>>,
    search: (string, Option<U32>, Option<U32>) -> Option<string>)

  /** A link to a book page, labelled with the book's title. */
  datatype BookLink = BookLink(book: string, title: string)

  /** A link "Chapter n" to `/{book}/{n}`. */
  datatype ChapterLink = ChapterLink(book: string, chapter: nat)

  /** A link "Verse n" to `/{book}/{chapter}/{n}`. */
  datatype VerseLink = VerseLink(book: string, chapter: U32, verse: nat)

  datatype IndexPage = IndexPage(heading: string, links: seq<BookLink>)
  datatype BookPage = BookPage(book: string, title: string, links: seq<ChapterLink>)
  datatype ChapterPage = ChapterPage(book: string, title: string, chapter: U32, links: seq<VerseLink>)

  /** The response of the verse handler: a client error, or a page holding the
      looked-up text and the address shown beneath it. */
  datatype VerseResponse =
    | BadRequest(message: string)
    | VersePage(text: string, book: string, title: string, chapterShown: string, verseShown: string)

  /** The outcome of reading the chapter and verse segments of a verse
      address: the two optional numbers, or the reason for a client error. */
  datatype AddressParse =
    | Address(chapter: Option<U32>, verse: Option<U32>)
    | Invalid(message: string)

  const INDEX_HEADING := "The Bible"
  const NOT_FOUND_TEXT := "Reference not found."
  const BAD_CHAPTER := "Invalid chapter format"
  const BAD_VERSE := "Invalid verse format"

  /** `/`: one link per book, in corpus order, labelled with its title. */
  method ListBooks<C, V>(corpus: Corpus<C, V>) returns (page: IndexPage)
    ensures page.heading == INDEX_HEADING
    ensures |page.links| == |corpus.books|
    ensures forall i :: 0 <= i < |page.links| ==>
      page.links[i].book == corpus.books[i] && page.links[i].title == KebabToTitleCase(corpus.books[i])
  {
    var links: seq<BookLink> := [];
    var i := 0;
    while i < |corpus.books|
      invariant i <= |corpus.books| && |links| == i
      invariant forall j :: 0 <= j < i ==>
        links[j].book == corpus.books[j] && links[j].title == KebabToTitleCase(corpus.books[j])
    {
      var book := corpus.books[i];
      links := links + [BookLink(book, KebabToTitleCase(book))];
      i := i + 1;
    }
    page := IndexPage(INDEX_HEADING, links);
  }

  /** The numbers carried by a run of chapter links. */
  function ChapterNumbers(links: seq<ChapterLink>): (numbers: set<nat>)
  {
    set i | 0 <= i < |links| :: links[i].chapter
  }

  /** `/{book}`: an unknown book gives no links; otherwise one link per
      chapter, numbered by position from 1, all to the requested book. */
  method GetBook<C, V>(corpus: Corpus<C, V>, book: string) returns (page: BookPage)
    ensures page.book == book && page.title == KebabToTitleCase(book)
    ensures corpus.chapters(book).None? ==> page.links == []
    ensures corpus.chapters(book).Some? ==> |page.links| == |corpus.chapters(book).value|
    ensures forall i :: 0 <= i < |page.links| ==> page.links[i] == ChapterLink(book, i + 1)
    ensures forall n :: n in ChapterNumbers(page.links) <==> 1 <= n <= |page.links|
  {
    var chapters := corpus.chapters(book).UnwrapOr([]);
    var links: seq<ChapterLink> := [];
    var i := 0;
    while i < |chapters|
      invariant i <= |chapters| && |links| == i
      invariant forall j :: 0 <= j < i ==> links[j] == ChapterLink(book, j + 1)
    {
      links := links + [ChapterLink(book, i + 1)];
      i := i + 1;
    }
    forall n | 1 <= n <= |links|
      ensures n in ChapterNumbers(links)
    {
      assert links[n - 1].chapter == n;
    }
    page := BookPage(book, KebabToTitleCase(book), links);
  }

  /** `/{book}/{chapter}`: an unknown book or chapter gives no links;
      otherwise one link per verse, numbered by position from 1, each to the
      requested book and chapter. */
  method GetChapter<C, V>(corpus: Corpus<C, V>, book: string, chapter: U32) returns (page: ChapterPage)
    ensures page.book == book && page.title == KebabToTitleCase(book) && page.chapter == chapter
    ensures corpus.verses(book, chapter).None? ==> page.links == []
    ensures corpus.verses(book, chapter).Some? ==> |page.links| == |corpus.verses(book, chapter).value|
    ensures forall i :: 0 <= i < |page.links| ==> page.links[i] == VerseLink(book, chapter, i + 1)
  {
    var verses := corpus.verses(book, chapter).UnwrapOr([]);
    var links: seq<VerseLink> := [];
    var i := 0;
    while i < |verses|
      invariant i <= |verses| && |links| == i
      invariant forall j :: 0 <= j < i ==> links[j] == VerseLink(book, chapter, j + 1)
    {
      links := links + [VerseLink(book, chapter, i + 1)];
      i := i + 1;
    }
    page := ChapterPage(book, KebabToTitleCase(book), chapter, links);
  }

  /** The boundary step of `/{book}/{chapter}/{verse}`: both segments are
      read, the chapter first, before anything consults the corpus. */
  function ParseAddress(chapter: string, verse: string): (r: AddressParse)
    ensures ParseSegment(chapter).Malformed? ==> r == Invalid(BAD_CHAPTER)
    ensures !ParseSegment(chapter).Malformed? && ParseSegment(verse).Malformed? ==> r == Invalid(BAD_VERSE)
    ensures r.Address? <==> !ParseSegment(chapter).Malformed? && !ParseSegment(verse).Malformed?
    ensures r.Address? ==> r.chapter == ParseSegment(chapter).AsOption() && r.verse == ParseSegment(verse).AsOption()
  {
    var c := ParseSegment(chapter);
    if c.Malformed? then Invalid(BAD_CHAPTER)
    else
      var v := ParseSegment(verse);
      if v.Malformed? then Invalid(BAD_VERSE)
      else Address(c.AsOption(), v.AsOption())
  }

  /** `/{book}/{chapter}/{verse}`. */
  function GetVerse<C, V>(corpus: Corpus<C, V>, book: string, chapter: string, verse: string): (r: VerseResponse)
    ensures ParseSegment(chapter).Malformed? ==> r == BadRequest(BAD_CHAPTER)
    ensures !ParseSegment(chapter).Malformed? && ParseSegment(verse).Malformed? ==> r == BadRequest(BAD_VERSE)
    ensures r.VersePage? <==> ParseAddress(chapter, verse).Address?
    ensures r.VersePage? ==>
      var found := corpus.search(book, ParseSegment(chapter).AsOption(), ParseSegment(verse).AsOption());
      && (found.Some? ==> r.text == found.value)
      && (found.None? ==> r.text == NOT_FOUND_TEXT)
    ensures r.VersePage? ==> r.book == book && r.title == KebabToTitleCase(book)
    ensures r.VersePage? ==> (r.chapterShown == "" <==> chapter == "") && (r.verseShown == "" <==> verse == "")
    ensures r.VersePage? ==> r.chapterShown == Display(ParseSegment(chapter).AsOption())
    ensures r.VersePage? ==> r.verseShown == Display(ParseSegment(verse).AsOption())
    ensures r.VersePage? ==> ParseSegment(r.chapterShown) == ParseSegment(chapter)
    ensures r.VersePage? ==> ParseSegment(r.verseShown) == ParseSegment(verse)
  {
    match ParseAddress(chapter, verse)
    case Invalid(message) => BadRequest(message)
    case Address(c, v) =>
      var text := corpus.search(book, c, v).UnwrapOr(NOT_FOUND_TEXT);
      VersePage(text, book, KebabToTitleCase(book), Display(c), Display(v))
  }

  /** The verse handler consults the corpus once, for exactly the parsed
      reference, and not at all when a segment is malformed: two corpora that
      agree on that one search give the same response, and on a malformed
      address any two corpora do. */
  lemma VerseDependsOnlyOnLookup<C, V>(c1: Corpus<C, V>, c2: Corpus<C, V>, book: string, chapter: string, verse: string)
    requires ParseAddress(chapter, verse).Address? ==>
      var a := ParseAddress(chapter, verse);
      c1.search(book, a.chapter, a.verse) == c2.search(book, a.chapter, a.verse)
    ensures GetVerse(c1, book, chapter, verse) == GetVerse(c2, book, chapter, verse)
  {
  }

  /** A verse number without a chapter is handed to the search as given,
      with no chapter, rather than rejected. */
  lemma VerseWithoutChapterIsForwarded<C, V>(corpus: Corpus<C, V>, book: string, verse: U32)
    ensures ParseAddress("", Decimal(verse)) == Address(None, Some(verse))
    ensures GetVerse(corpus, book, "", Decimal(verse)).VersePage?
    ensures GetVerse(corpus, book, "", Decimal(verse)).text == corpus.search(book, None, Some(verse)).UnwrapOr(NOT_FOUND_TEXT)
  {
  }

  /** Following a verse link of a chapter page asks the search for exactly
      that chapter and verse, and shows them as the link's numbers. */
  lemma VerseLinkResolves<C, V>(corpus: Corpus<C, V>, link: VerseLink)
    requires link.verse < U32_LIMIT
    ensures ParseAddress(Decimal(link.chapter), Decimal(link.verse)) == Address(Some(link.chapter), Some(link.verse as U32))
    ensures var r := GetVerse(corpus, link.book, Decimal(link.chapter), Decimal(link.verse));
      && r.VersePage?
      && r.text == corpus.search(link.book, Some(link.chapter), Some(link.verse as U32)).UnwrapOr(NOT_FOUND_TEXT)
      && r.chapterShown == Decimal(link.chapter)
      && r.verseShown == Decimal(link.verse)
  {
  }
}
