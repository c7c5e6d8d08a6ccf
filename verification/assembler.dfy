/** The book assembler of stendhals_quill.py: the page list is cut into
    books of at most 97 content pages (`process_book`, lines 317-328), and
    every book is framed by a front page, the seal page and an end page that
    carry its number i of N (lines 333-338, with the page templates
    `create_front_page`, `create_second_page` and `create_end_page`). */
module Assembler {
  import opened Text

  /** Content pages per book, leaving room for the three decoration pages
      within the game's limit of 100 pages per book. */
  const MaxPagesPerBook: nat := 97

  /** The metadata entered in the form. */
  datatype BookInfo = BookInfo(
    title: string,
    author: string,
    bookType: string,
    broughtBy: string,
    libraryName: string)

  /** `self.brought_by_entry.get() or "Anonymous"`: an empty entry falls
      back to "Anonymous". */
  function BroughtBy(entry: string): (r: string)
    ensures r != ""
    ensures entry != "" ==> r == entry
    ensures entry == "" ==> r == "Anonymous"
  {
    if entry == "" then "Anonymous" else entry
  }

  // ---------------------------------------------------------------------
  // Page templates
  // ---------------------------------------------------------------------

  /** An f-string field holding an optional number: `None` prints as "None". */
  function OptionalNumber(n: Option<nat>): string {
    match n
    case None => "None"
    case Some(v) => NatToString(v)
  }

  /** The "Book i of N" text shared by the front and the end page. */
  function BookOf(number: string, total: string): string {
    "Book " + number + " of " + total
  }

  /** The front page's subtitle: red bold "Book i of N" when a book number
      is given, and nothing otherwise. */
  function Subtitle(bookNumber: Option<nat>, totalBooks: Option<nat>): string {
    if bookNumber.None? then ""
    else "\U{A7}4\U{A7}l" + BookOf(NatToString(bookNumber.value), OptionalNumber(totalBooks))
  }

  /** The lines of `create_front_page(title, author, book_type,
      library_name, book_number, total_books)`: styled title, "by" line, an
      empty line, the subtitle, the book type between two stars, six empty
      lines and the library name. */
  function FrontLines(title: string, author: string, bookType: string, libraryName: string,
                      bookNumber: Option<nat>, totalBooks: Option<nat>): seq<string>
  {
    ["\U{A7}4\U{A7}l\U{A7}o" + title, "\U{A7}7by " + author, "", Subtitle(bookNumber, totalBooks),
     "\U{A7}c✧ \U{A7}7\U{A7}o" + bookType + " \U{A7}c✧", "", "", "", "", "", "", "\U{A7}4\U{A7}o" + libraryName + " \U{A7}r"]
  }

  /** `create_front_page(...)`: the template's lines joined by line breaks. */
  function FrontPage(title: string, author: string, bookType: string, libraryName: string,
                     bookNumber: Option<nat>, totalBooks: Option<nat>): string
  {
    Join(FrontLines(title, author, bookType, libraryName, bookNumber, totalBooks), "\n")
  }

  /** `create_second_page()`: the fixed seal-of-approval page, written
      line by line: two empty lines, a line of four blanks, an empty line,
      the seal's four indented lines, and an empty last line after the final
      line break. */
  const SealPage: string :=
    ""                                                          + "\n" +
    ""                                                          + "\n" +
    "    "                                                      + "\n" +
    ""                                                          + "\n" +
    "       \U{A7}b✧ \U{A7}6W\U{A7}bX\U{A7}6Y\U{A7}bZ \U{A7}b✧" + "\n" +
    "          \U{A7}6SEAL"                                     + "\n" +
    "           \U{A7}bOF"                                      + "\n" +
    "       \U{A7}6APPROVAL"                                    + "\n" +
    ""

  /** The lines of `create_end_page(title, author, brought_by, library_name,
      book_number, total_books)`: "End of" the title, "Book i of N", the
      "by" line, three empty lines, who brought the book in-game, an empty
      line, a line of two blanks and the library name. */
  function EndLines(title: string, author: string, broughtBy: string, libraryName: string,
                    bookNumber: nat, totalBooks: nat): seq<string>
  {
    ["\U{A7}4\U{A7}l\U{A7}oEnd of ✦ " + title + " ✦", BookOf(NatToString(bookNumber), NatToString(totalBooks)),
     "\U{A7}7by " + author, "", "", "", "\U{A7}7Brought in-game by:", "\U{A7}b✧ \U{A7}6" + broughtBy + "\U{A7}b ✧",
     "", "  ", "\U{A7}4" + libraryName]
  }

  /** A property of the distinct lines of the front template holds for
      every line of it. */
  lemma EveryFrontLine(p: string -> bool, title: string, author: string, bookType: string, libraryName: string,
                       bookNumber: Option<nat>, totalBooks: Option<nat>)
    requires p("\U{A7}4\U{A7}l\U{A7}o" + title) && p("\U{A7}7by " + author) && p("")
    requires p(Subtitle(bookNumber, totalBooks))
    requires p("\U{A7}c✧ \U{A7}7\U{A7}o" + bookType + " \U{A7}c✧") && p("\U{A7}4\U{A7}o" + libraryName + " \U{A7}r")
    ensures var ls := FrontLines(title, author, bookType, libraryName, bookNumber, totalBooks);
      forall i :: 0 <= i < |ls| ==> p(ls[i])
  {
  }

  /** A property of the distinct lines of the end template holds for every
      line of it. */
  lemma EveryEndLine(p: string -> bool, title: string, author: string, broughtBy: string, libraryName: string,
                     bookNumber: nat, totalBooks: nat)
    requires p("\U{A7}4\U{A7}l\U{A7}oEnd of ✦ " + title + " ✦") && p(BookOf(NatToString(bookNumber), NatToString(totalBooks)))
    requires p("\U{A7}7by " + author) && p("") && p("\U{A7}7Brought in-game by:") && p("  ")
    requires p("\U{A7}b✧ \U{A7}6" + broughtBy + "\U{A7}b ✧") && p("\U{A7}4" + libraryName)
    ensures var ls := EndLines(title, author, broughtBy, libraryName, bookNumber, totalBooks);
      forall i :: 0 <= i < |ls| ==> p(ls[i])
  {
  }

  /** `create_end_page(...)`: the template's lines joined by line breaks. */
  function EndPage(title: string, author: string, broughtBy: string, libraryName: string,
                   bookNumber: nat, totalBooks: nat): string
  {
    Join(EndLines(title, author, broughtBy, libraryName, bookNumber, totalBooks), "\n")
  }

  lemma BookOfSingleLine(number: string, total: string)
    requires SingleLine(number) && SingleLine(total)
    ensures SingleLine(BookOf(number, total))
  {
    SingleLineConcat("Book ", number);
    SingleLineConcat("Book " + number, " of ");
    SingleLineConcat("Book " + number + " of ", total);
  }

  lemma SubtitleSingleLine(bookNumber: Option<nat>, totalBooks: Option<nat>)
    ensures SingleLine(Subtitle(bookNumber, totalBooks))
  {
    if bookNumber.Some? {
      NatToStringSingleLine(bookNumber.value);
      if totalBooks.Some? {
        NatToStringSingleLine(totalBooks.value);
      }
      BookOfSingleLine(NatToString(bookNumber.value), OptionalNumber(totalBooks));
      SingleLineConcat("\U{A7}4\U{A7}l", BookOf(NatToString(bookNumber.value), OptionalNumber(totalBooks)));
    }
  }

  /** For a one-line title and author, the front page's lines are the styled
      title, the "by" line, an empty line and then the subtitle line, which
      is empty when no book number is given and reads "Book i of N" (in red
      bold) when one is. */
  lemma FrontPageLines(title: string, author: string, bookType: string, libraryName: string,
                       bookNumber: Option<nat>, totalBooks: Option<nat>)
    requires SingleLine(title) && SingleLine(author)
    ensures var lines := Lines(FrontPage(title, author, bookType, libraryName, bookNumber, totalBooks));
      && |lines| >= 4
      && lines[0] == "\U{A7}4\U{A7}l\U{A7}o" + title
      && lines[1] == "\U{A7}7by " + author
      && lines[2] == ""
      && (bookNumber.None? ==> lines[3] == "")
      && (bookNumber.Some? && totalBooks.Some? ==>
            lines[3] == "\U{A7}4\U{A7}l" + BookOf(NatToString(bookNumber.value), NatToString(totalBooks.value)))
  {
    var ls := FrontLines(title, author, bookType, libraryName, bookNumber, totalBooks);
    SingleLineConcat("\U{A7}4\U{A7}l\U{A7}o", title);
    SingleLineConcat("\U{A7}7by ", author);
    SubtitleSingleLine(bookNumber, totalBooks);
    assert SingleLine("");
    LinesOfJoinPrefix(ls, 4);
  }

  /** For a one-line title, the end page's first line is "End of" the title
      and its second line is "Book i of N". */
  lemma EndPageLines(title: string, author: string, broughtBy: string, libraryName: string,
                     bookNumber: nat, totalBooks: nat)
    requires SingleLine(title)
    ensures var lines := Lines(EndPage(title, author, broughtBy, libraryName, bookNumber, totalBooks));
      && |lines| >= 2
      && lines[0] == "\U{A7}4\U{A7}l\U{A7}oEnd of ✦ " + title + " ✦"
      && lines[1] == BookOf(NatToString(bookNumber), NatToString(totalBooks))
  {
    var ls := EndLines(title, author, broughtBy, libraryName, bookNumber, totalBooks);
    SingleLineConcat("\U{A7}4\U{A7}l\U{A7}oEnd of ✦ ", title);
    SingleLineConcat("\U{A7}4\U{A7}l\U{A7}oEnd of ✦ " + title, " ✦");
    NatToStringSingleLine(bookNumber);
    NatToStringSingleLine(totalBooks);
    BookOfSingleLine(NatToString(bookNumber), NatToString(totalBooks));
    LinesOfJoinPrefix(ls, 2);
  }

  /** Whatever the title and author, a numbered front page and every end
      page show "Book i of N". */
  lemma PagesShowNumbering(title: string, author: string, bookType: string, broughtBy: string,
                           libraryName: string, number: nat, total: nat)
    ensures Contains(FrontPage(title, author, bookType, libraryName, Some(number), Some(total)),
                     BookOf(NatToString(number), NatToString(total)))
    ensures Contains(EndPage(title, author, broughtBy, libraryName, number, total),
                     BookOf(NatToString(number), NatToString(total)))
  {
    var x := BookOf(NatToString(number), NatToString(total));
    var fl := FrontLines(title, author, bookType, libraryName, Some(number), Some(total));
    PieceOccursInJoin(fl, "\n", 3);
    var i :| 0 <= i <= |Join(fl, "\n")| && OccursAt(Join(fl, "\n"), i, fl[3]);
    OccursInMiddle("\U{A7}4\U{A7}l", x, "");
    assert fl[3] == "\U{A7}4\U{A7}l" + x + "";
    OccursWithin(Join(fl, "\n"), i, fl[3], 4, x);
    assert OccursAt(Join(fl, "\n"), i + 4, x);
    var el := EndLines(title, author, broughtBy, libraryName, number, total);
    PieceOccursInJoin(el, "\n", 1);
  }

  lemma OccursInMiddle(p: string, x: string, q: string)
    ensures OccursAt(p + x + q, |p|, x)
  {
    assert (p + x + q)[|p|..|p| + |x|] == x;
  }

  // ---------------------------------------------------------------------
  // Cutting the page list into books
  // ---------------------------------------------------------------------

  /** The loop of lines 322-328 from index `i` on, with `current` the book
      being filled: a page is appended, and the book is closed when it holds
      97 pages or the page was the last one. */
  function ChunkFrom(pages: seq<string>, i: nat, current: seq<string>): seq<seq<string>>
    requires i <= |pages|
    decreases |pages| - i
  {
    if i == |pages| then []
    else
      var next := current + [pages[i]];
      if |next| == MaxPagesPerBook || i == |pages| - 1 then [next] + ChunkFrom(pages, i + 1, [])
      else ChunkFrom(pages, i + 1, next)
  }

  /** The content pages of each book, before decoration. */
  function Chunk(pages: seq<string>): seq<seq<string>> {
    ChunkFrom(pages, 0, [])
  }

  /** The number of books for `n` pages: the ceiling of n / 97. */
  function BookCount(n: nat): nat {
    (n + MaxPagesPerBook - 1) / MaxPagesPerBook
  }

  /** The invariant of the chunking loop: the books, read in order, are the
      open book followed by the rest of the pages; all but the last book are
      full and the last holds 1 to 97 pages; the number of books is what the
      open book and the remaining pages need. */
  lemma {:induction false} ChunkFromInvariant(pages: seq<string>, i: nat, current: seq<string>)
    requires i <= |pages| && |current| < MaxPagesPerBook
    requires i == |pages| ==> current == []
    ensures var books := ChunkFrom(pages, i, current);
      && Flatten(books) == current + pages[i..]
      && (forall j :: 0 <= j < |books| - 1 ==> |books[j]| == MaxPagesPerBook)
      && (|books| > 0 ==> 1 <= |books[|books| - 1]| <= MaxPagesPerBook)
      && |books| == BookCount(|current| + |pages| - i)
    decreases |pages| - i
  {
    if i < |pages| {
      var next := current + [pages[i]];
      assert pages[i..] == [pages[i]] + pages[i + 1..];
      if |next| == MaxPagesPerBook || i == |pages| - 1 {
        ChunkFromInvariant(pages, i + 1, []);
        var rest := ChunkFrom(pages, i + 1, []);
        assert Flatten([next] + rest) == next + Flatten(rest);
        if i + 1 == |pages| {
          assert rest == [];
        }
      } else {
        ChunkFromInvariant(pages, i + 1, next);
      }
    }
  }

  /** Chunking: no page means no book (not one empty book); otherwise
      ceil(L / 97) books, all full but the last, which holds 1 to 97 pages,
      and the books read in order are the original page list. */
  lemma ChunkProperties(pages: seq<string>)
    ensures var books := Chunk(pages);
      && (pages == [] <==> books == [])
      && |books| == BookCount(|pages|)
      && (forall j :: 0 <= j < |books| - 1 ==> |books[j]| == MaxPagesPerBook)
      && (forall j :: 0 <= j < |books| ==> 1 <= |books[j]| <= MaxPagesPerBook)
      && Flatten(books) == pages
  {
    ChunkFromInvariant(pages, 0, []);
    assert pages[0..] == pages;
  }

  // ---------------------------------------------------------------------
  // Decoration
  // ---------------------------------------------------------------------

  /** Lines 333-338 for book `number` of `total`: front page at index 0, the
      seal at index 1, the content pages, and the end page appended. */
  function DecorateBook(info: BookInfo, content: seq<string>, number: nat, total: nat): seq<string> {
    [FrontPage(info.title, info.author, info.bookType, info.libraryName, Some(number), Some(total)),
     SealPage]
    + content
    + [EndPage(info.title, info.author, info.broughtBy, info.libraryName, number, total)]
  }

  /** The books built from a page list: chunked, then each decorated with
      its 1-based number and the number of books. */
  function AssembleBooks(pages: seq<string>, info: BookInfo): seq<seq<string>> {
    var chunks := Chunk(pages);
    seq(|chunks|, i requires 0 <= i < |chunks| => DecorateBook(info, chunks[i], i + 1, |chunks|))
  }

  /** The content pages of a decorated book: all but the first two and the
      last page. */
  function ContentPages(book: seq<string>): seq<string>
    requires |book| >= 3
  {
    book[2..|book| - 1]
  }

  /** A decorated book is its content pages plus three: the front page
      numbered i of N first, the seal page second, the end page with the
      same numbering last, and stripping those gives the content back. */
  lemma DecorateBookShape(info: BookInfo, content: seq<string>, number: nat, total: nat)
    ensures var book := DecorateBook(info, content, number, total);
      && |book| == |content| + 3
      && book[0] == FrontPage(info.title, info.author, info.bookType, info.libraryName, Some(number), Some(total))
      && book[1] == SealPage
      && book[|book| - 1] == EndPage(info.title, info.author, info.broughtBy, info.libraryName, number, total)
      && ContentPages(book) == content
  {
    var front := FrontPage(info.title, info.author, info.bookType, info.libraryName, Some(number), Some(total));
    var end := EndPage(info.title, info.author, info.broughtBy, info.libraryName, number, total);
    Framed(front, SealPage, content, end);
  }

  lemma Framed<X>(a: X, b: X, middle: seq<X>, z: X)
    ensures var book := [a, b] + middle + [z];
      && |book| == |middle| + 3
      && book[0] == a && book[1] == b && book[|book| - 1] == z
      && book[2..|book| - 1] == middle
  {
    var book := [a, b] + middle + [z];
    assert book[2..|book| - 1] == middle;
  }

  /** Assembly: ceil(L / 97) books and none for no page; each book is its
      chunk plus exactly three pages, 4 to 100 in all; index 0 is the front
      page numbered i+1 of N, index 1 the seal page, the last page the end
      page with the same numbering; and stripping the decoration and reading
      the books in order gives back the original pages. */
  lemma AssembleProperties(pages: seq<string>, info: BookInfo)
    ensures var books := AssembleBooks(pages, info);
      && |books| == BookCount(|pages|)
      && (pages == [] <==> books == [])
      && (forall i :: 0 <= i < |books| ==>
            && |books[i]| == |Chunk(pages)[i]| + 3
            && 4 <= |books[i]| <= MaxPagesPerBook + 3
            && books[i][0] == FrontPage(info.title, info.author, info.bookType, info.libraryName,
                                        Some(i + 1), Some(|books|))
            && books[i][1] == SealPage
            && books[i][|books[i]| - 1] == EndPage(info.title, info.author, info.broughtBy,
                                                   info.libraryName, i + 1, |books|))
      && (forall i :: 0 <= i < |books| - 1 ==> |books[i]| == MaxPagesPerBook + 3)
      && Flatten(seq(|books|, i requires 0 <= i < |books| && |books[i]| >= 3 => ContentPages(books[i]))) == pages
  {
    var chunks := Chunk(pages);
    var books := AssembleBooks(pages, info);
    ChunkProperties(pages);
    forall i | 0 <= i < |books|
      ensures |books[i]| == |chunks[i]| + 3
      ensures books[i][0] == FrontPage(info.title, info.author, info.bookType, info.libraryName,
                                       Some(i + 1), Some(|books|))
      ensures books[i][1] == SealPage
      ensures books[i][|books[i]| - 1] == EndPage(info.title, info.author, info.broughtBy,
                                                  info.libraryName, i + 1, |books|)
    {
      assert books[i] == DecorateBook(info, chunks[i], i + 1, |chunks|);
      DecorateBookShape(info, chunks[i], i + 1, |chunks|);
    }
    BooksContents(pages, info);
  }

  lemma BooksContents(pages: seq<string>, info: BookInfo)
    ensures var books := AssembleBooks(pages, info);
      Flatten(seq(|books|, i requires 0 <= i < |books| && |books[i]| >= 3 => ContentPages(books[i]))) == pages
  {
    var chunks := Chunk(pages);
    var books := AssembleBooks(pages, info);
    ChunkProperties(pages);
    forall i | 0 <= i < |books|
      ensures |books[i]| >= 3 && ContentPages(books[i]) == chunks[i]
    {
      assert books[i] == DecorateBook(info, chunks[i], i + 1, |chunks|);
      DecorateBookShape(info, chunks[i], i + 1, |chunks|);
    }
    assert |books| == |chunks|;
    assert seq(|books|, i requires 0 <= i < |books| && |books[i]| >= 3 => ContentPages(books[i])) == chunks;
  }

  /** 150 pages make two books, 97 and 53 content pages, 100 and 56 pages
      once decorated, numbered 1 of 2 and 2 of 2. */
  lemma HundredFiftyPages(pages: seq<string>, info: BookInfo)
    requires |pages| == 150
    ensures var books := AssembleBooks(pages, info);
      && |books| == 2
      && |books[0]| == 100 && |books[1]| == 56
      && books[0][0] == FrontPage(info.title, info.author, info.bookType, info.libraryName, Some(1), Some(2))
      && books[1][0] == FrontPage(info.title, info.author, info.bookType, info.libraryName, Some(2), Some(2))
  {
    AssembleProperties(pages, info);
    ChunkProperties(pages);
    var chunks := Chunk(pages);
    FlattenAppend([chunks[0]], [chunks[1]]);
    assert chunks == [chunks[0]] + [chunks[1]];
    assert Flatten([chunks[1]]) == chunks[1] + Flatten([]);
  }
}
