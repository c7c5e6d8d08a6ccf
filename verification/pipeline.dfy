/** `process_book` and `write_stendhal_files` of stendhals_quill.py end to
    end: the input text is cleaned (`process_text`), paginated
    (`split_into_pages` with its default limit of 220 characters), cut into
    decorated books, and every book is written to its own file. */
module Pipeline {
  import opened Text
  import Paginator
  import Redaction
  import Assembler
  import StendhalFile

  /** The form's entries as typed; an empty "brought by" entry stands for
      "Anonymous". */
  datatype Form = Form(
    title: string,
    author: string,
    bookType: string,
    broughtBy: string,
    libraryName: string)

  /** Lines 295-299: the metadata the books are decorated with. */
  function Info(form: Form): Assembler.BookInfo {
    Assembler.BookInfo(form.title, form.author, form.bookType,
                       Assembler.BroughtBy(form.broughtBy), form.libraryName)
  }

  /** The chosen input file: its name, its contents read as text, and the
      text the PDF library extracts from each of its pages. Only one of the
      two readings is used, chosen by the name. */
  datatype Input = Input(name: string, text: string, pdfPages: seq<string>)

  /** `name.lower().endswith('.pdf')`. Only ASCII letters lower-case to
      "p", "d" or "f", so ASCII case folding decides the test exactly. */
  predicate IsPdfName(name: string) {
    |name| >= 4
    && Redaction.LowerAscii(name[|name| - 4]) == '.'
    && Redaction.LowerAscii(name[|name| - 3]) == 'p'
    && Redaction.LowerAscii(name[|name| - 2]) == 'd'
    && Redaction.LowerAscii(name[|name| - 1]) == 'f'
  }

  /** `extract_text_from_pdf` before its final cleaning: each page's text
      followed by a blank line. */
  function PdfText(pages: seq<string>): string {
    if pages == [] then "" else pages[0] + Paginator.ParagraphBreak + PdfText(pages[1..])
  }

  /** The cleaned text of lines 305-310: a PDF is extracted and cleaned
      inside `extract_text_from_pdf`, any other file is read whole and
      cleaned by `process_text`. */
  function Content(input: Input, removeLinks: string -> string): string {
    if IsPdfName(input.name) then Redaction.ProcessText(PdfText(input.pdfPages), removeLinks)
    else Redaction.ProcessText(input.text, removeLinks)
  }

  /** Lines 312-338: the decorated books. */
  function ProcessBook(form: Form, input: Input, removeLinks: string -> string): seq<seq<string>> {
    Assembler.AssembleBooks(
      Paginator.SplitIntoPages(Content(input, removeLinks), Paginator.DefaultMaxChars),
      Info(form))
  }

  datatype OutputFile = OutputFile(name: string, text: string)

  /** `write_stendhal_files`: book i (0-based) goes to the file of number
      i + 1. */
  function WriteFiles(title: string, author: string, books: seq<seq<string>>): seq<OutputFile> {
    seq(|books|, i requires 0 <= i < |books| =>
      OutputFile(StendhalFile.FileName(title, i + 1),
                 StendhalFile.Render(title, author, i + 1, books[i])))
  }

  /** Lines 287-290: processing starts only once an input file is chosen and
      the title, author and book-type entries are non-empty; the "brought
      by" and library entries may be left empty. */
  predicate RequiredFilled(form: Form, input: Input) {
    input.name != "" && form.title != "" && form.author != "" && form.bookType != ""
  }

  /** What pressing "Process Book" produces: the error for a missing entry,
      or the books and the files written for them. */
  datatype Outcome = MissingFields | Written(books: seq<seq<string>>, files: seq<OutputFile>)

  /** `process_book` followed by `write_stendhal_files`. */
  function Run(form: Form, input: Input, removeLinks: string -> string): Outcome {
    if !RequiredFilled(form, input) then MissingFields
    else
      var books := ProcessBook(form, input, removeLinks);
      Written(books, WriteFiles(form.title, form.author, books))
  }

  // ---------------------------------------------------------------------
  // Properties
  // ---------------------------------------------------------------------

  /** Whichever way the input is read, the cleaned text holds no occurrence
      of the sensitive word in any letter case. */
  lemma ContentRedacted(input: Input, removeLinks: string -> string)
    ensures var c := Content(input, removeLinks);
      Redaction.NoMatchBefore(c, |c|, "bad word")
  {
    if IsPdfName(input.name) {
      Redaction.ProcessTextRedacts(PdfText(input.pdfPages), removeLinks);
    } else {
      Redaction.ProcessTextRedacts(input.text, removeLinks);
    }
  }

  /** One file per book, no two with the same name. */
  lemma FilesPerBook(title: string, author: string, books: seq<seq<string>>)
    ensures var files := WriteFiles(title, author, books);
      && |files| == |books|
      && (forall i, j :: 0 <= i < j < |files| ==> files[i].name != files[j].name)
  {
    var files := WriteFiles(title, author, books);
    forall i, j | 0 <= i < j < |files|
      ensures files[i].name != files[j].name
    {
      StendhalFile.FileNamesDistinct(title, i + 1, j + 1);
    }
  }

  /** The run stops with an error exactly when the input file, the title,
      the author or the book type is missing; otherwise it writes one file
      per book under distinct names, and no file at all exactly when the
      cleaned text gives no page. */
  lemma RunOutcome(form: Form, input: Input, removeLinks: string -> string)
    ensures var r := Run(form, input, removeLinks);
      && (r.MissingFields? <==>
            input.name == "" || form.title == "" || form.author == "" || form.bookType == "")
      && (r.Written? ==>
            && |r.files| == |r.books|
            && (forall i, j :: 0 <= i < j < |r.files| ==> r.files[i].name != r.files[j].name)
            && (r.files == [] <==>
                  Paginator.SplitIntoPages(Content(input, removeLinks), Paginator.DefaultMaxChars) == []))
  {
    var r := Run(form, input, removeLinks);
    if r.Written? {
      var pages := Paginator.SplitIntoPages(Content(input, removeLinks), Paginator.DefaultMaxChars);
      Assembler.AssembleProperties(pages, Info(form));
      FilesPerBook(form.title, form.author, r.books);
    }
  }

  /** A cleaned text that is empty writes no file. */
  lemma EmptyContentNoFiles(form: Form, input: Input, removeLinks: string -> string)
    requires RequiredFilled(form, input)
    requires Content(input, removeLinks) == ""
    ensures Run(form, input, removeLinks) == Written([], [])
  {
    Paginator.EmptyTextNoPages(Paginator.DefaultMaxChars);
    RunOutcome(form, input, removeLinks);
  }

  /** The form entries a file can carry: a one-line title and author, which
      go into the header lines, and a book type, "brought by" name and
      library name none of whose lines is the page delimiter. */
  predicate FormFitsFile(form: Form) {
    SingleLine(form.title) && SingleLine(form.author)
    && StendhalFile.NoDelimiterIn(Lines(form.bookType))
    && StendhalFile.NoDelimiterIn(Lines(form.broughtBy))
    && StendhalFile.NoDelimiterIn(Lines(form.libraryName))
  }

  /** No section-sign paragraph of the text holds the page delimiter as a
      line of its own. */
  predicate SectionParagraphsClean(text: string) {
    forall p :: p in SplitOn(text, Paginator.ParagraphBreak) && Paginator.StartsWithSection(p) ==>
      forall j :: 0 <= j < |Lines(p)| ==> Lines(p)[j] != StendhalFile.Delimiter
  }

  /** The files written for a book read back as the assembled books: each
      file's title is the form's title with " - Book i", its author the
      form's author, and its pages the book's pages, decoration included.
      This holds when the form fits the file format and no section-sign
      paragraph has a line that is the page delimiter. */
  lemma FilesReadBack(form: Form, input: Input, removeLinks: string -> string)
    requires FormFitsFile(form)
    requires SectionParagraphsClean(Content(input, removeLinks))
    ensures var books := ProcessBook(form, input, removeLinks);
      var files := WriteFiles(form.title, form.author, books);
      forall i :: 0 <= i < |files| ==>
        StendhalFile.ReadFile(files[i].text)
          == Some(StendhalFile.StendhalBook(form.title + " - Book " + NatToString(i + 1), form.author, books[i]))
  {
    var text := Content(input, removeLinks);
    PagesClean(text);
    WrittenBooksReadBack(form, Paginator.SplitIntoPages(text, Paginator.DefaultMaxChars));
  }

  /** The files of books assembled from pages without delimiter lines read
      back as those books. */
  lemma WrittenBooksReadBack(form: Form, pages: seq<string>)
    requires FormFitsFile(form)
    requires forall page :: page in pages ==> StendhalFile.NoDelimiterIn(Lines(page))
    ensures var books := Assembler.AssembleBooks(pages, Info(form));
      var files := WriteFiles(form.title, form.author, books);
      forall i :: 0 <= i < |files| ==>
        StendhalFile.ReadFile(files[i].text)
          == Some(StendhalFile.StendhalBook(form.title + " - Book " + NatToString(i + 1), form.author, books[i]))
  {
    var books := Assembler.AssembleBooks(pages, Info(form));
    var files := WriteFiles(form.title, form.author, books);
    forall i | 0 <= i < |files|
      ensures StendhalFile.ReadFile(files[i].text)
          == Some(StendhalFile.StendhalBook(form.title + " - Book " + NatToString(i + 1), form.author, books[i]))
    {
      assert files[i].text == StendhalFile.Render(form.title, form.author, i + 1, books[i]);
      BookReadBack(form, pages, i);
    }
  }

  /** No page of a text whose section-sign paragraphs are clean has a
      delimiter line. */
  lemma PagesClean(text: string)
    requires SectionParagraphsClean(text)
    ensures forall page :: page in Paginator.SplitIntoPages(text, Paginator.DefaultMaxChars) ==>
              StendhalFile.NoDelimiterIn(Lines(page))
  {
    Paginator.PageKinds(text, Paginator.DefaultMaxChars);
    forall page | page in Paginator.SplitIntoPages(text, Paginator.DefaultMaxChars)
      ensures StendhalFile.NoDelimiterIn(Lines(page))
    {
      ContentPageClean(text, page);
    }
  }

  /** Book i's file reads back as book i. */
  lemma BookReadBack(form: Form, pages: seq<string>, i: nat)
    requires FormFitsFile(form)
    requires forall page :: page in pages ==> StendhalFile.NoDelimiterIn(Lines(page))
    requires i < |Assembler.AssembleBooks(pages, Info(form))|
    ensures var books := Assembler.AssembleBooks(pages, Info(form));
      StendhalFile.ReadFile(StendhalFile.Render(form.title, form.author, i + 1, books[i]))
        == Some(StendhalFile.StendhalBook(form.title + " - Book " + NatToString(i + 1), form.author, books[i]))
  {
    var books := Assembler.AssembleBooks(pages, Info(form));
    var chunks := Assembler.Chunk(pages);
    assert books[i] == Assembler.DecorateBook(Info(form), chunks[i], i + 1, |chunks|);
    ChunkPagesIn(pages, i);
    BookClean(form, chunks[i], pages, i + 1, |chunks|);
    StendhalFile.ReadRender(form.title, form.author, i + 1, books[i]);
  }

  /** The pages of each chunk are pages of the list. */
  lemma ChunkPagesIn(pages: seq<string>, i: nat)
    requires i < |Assembler.Chunk(pages)|
    ensures forall k :: 0 <= k < |Assembler.Chunk(pages)[i]| ==> Assembler.Chunk(pages)[i][k] in pages
  {
    var chunks := Assembler.Chunk(pages);
    Assembler.ChunkProperties(pages);
    forall k | 0 <= k < |chunks[i]|
      ensures chunks[i][k] in pages
    {
      FlattenMember(chunks, chunks[i][k]);
    }
  }

  /** A page of the cleaned text has no delimiter line. */
  lemma ContentPageClean(text: string, page: string)
    requires SectionParagraphsClean(text)
    requires (Paginator.StartsWithSection(page) && page in SplitOn(text, Paginator.ParagraphBreak))
             || (page == Join(Words(page), " ") && SingleLine(page))
    ensures StendhalFile.NoDelimiterIn(Lines(page))
  {
    if !(Paginator.StartsWithSection(page) && page in SplitOn(text, Paginator.ParagraphBreak)) {
      LinesOfSingleLine(page);
      if page == StendhalFile.Delimiter {
        Paginator.JoinEnds(Words(page));
      }
    }
  }

  /** A decorated book has no delimiter line in any page. */
  lemma BookClean(form: Form, chunk: seq<string>, pages: seq<string>, number: nat, total: nat)
    requires FormFitsFile(form)
    requires forall k :: 0 <= k < |chunk| ==> chunk[k] in pages
    requires forall page :: page in pages ==> StendhalFile.NoDelimiterIn(Lines(page))
    ensures StendhalFile.NoDelimiterLine(Assembler.DecorateBook(Info(form), chunk, number, total))
  {
    var info := Info(form);
    var front := Assembler.FrontPage(info.title, info.author, info.bookType, info.libraryName, Some(number), Some(total));
    var end := Assembler.EndPage(info.title, info.author, info.broughtBy, info.libraryName, number, total);
    var book := Assembler.DecorateBook(info, chunk, number, total);
    FrontPageClean(form, number, total);
    SealPageClean();
    EndPageClean(form, number, total);
    forall k | 0 <= k < |book|
      ensures StendhalFile.NoDelimiterIn(Lines(book[k]))
    {
      DecoratedIndex(front, Assembler.SealPage, chunk, end, k);
    }
  }

  /** The page at index `k` of a decorated book. It is stated for any
      element type so that the solver does not look into the pages. */
  lemma DecoratedIndex<X>(a: X, b: X, middle: seq<X>, z: X, k: nat)
    requires k < |middle| + 3
    ensures var book := [a, b] + middle + [z];
      && |book| == |middle| + 3
      && (k == 0 ==> book[k] == a)
      && (k == 1 ==> book[k] == b)
      && (2 <= k < |middle| + 2 ==> book[k] == middle[k - 2])
      && (k == |middle| + 2 ==> book[k] == z)
  {
  }

  /** A line with no line break that is not the delimiter. */
  lemma LineClean(line: string)
    requires SingleLine(line) && (line == "" || line[0] != '#')
    ensures StendhalFile.NoDelimiterIn(Lines(line))
  {
    LinesOfSingleLine(line);
  }

  /** A one-line entry after a one-line prefix that does not start like the
      delimiter. */
  lemma PrefixedLineClean(prefix: string, entry: string)
    requires SingleLine(prefix) && SingleLine(entry) && prefix != "" && prefix[0] != '#'
    ensures StendhalFile.NoDelimiterIn(Lines(prefix + entry))
  {
    SingleLineConcat(prefix, entry);
    LineClean(prefix + entry);
  }

  /** A template line that puts an entry after a formatting prefix and
      before a closing mark has no delimiter line when the entry has none:
      its first line starts with the prefix, and its last line ends with the
      mark, which does not end in a blank as the delimiter does. */
  lemma WrappedEntryClean(prefix: string, entry: string, mark: string)
    requires SingleLine(prefix) && SingleLine(mark) && prefix != "" && prefix[0] != '#'
    requires mark == "" || mark[|mark| - 1] != ' '
    requires StendhalFile.NoDelimiterIn(Lines(entry))
    ensures StendhalFile.NoDelimiterIn(Lines(prefix + entry + mark))
  {
    var l := Lines(entry);
    var m := Lines(entry + mark);
    LinesOfSuffixed(entry, mark);
    assert prefix + entry + mark == prefix + (entry + mark);
    LinesOfPrefixed(prefix, entry + mark);
    var r := Lines(prefix + entry + mark);
    forall j | 0 <= j < |r|
      ensures r[j] != StendhalFile.Delimiter
    {
      if j == 0 {
        assert r[0][0] == prefix[0];
      } else if j < |m| - 1 {
        assert r[j] == l[j];
      } else {
        assert r[j] == l[|l| - 1] + mark;
        if mark != "" {
          assert r[j][|r[j]| - 1] == mark[|mark| - 1];
        }
      }
    }
  }

  /** Lines without a delimiter line, joined by line breaks, have none. */
  lemma {:induction false} JoinClean(ls: seq<string>)
    requires |ls| >= 1
    requires forall i :: 0 <= i < |ls| ==> StendhalFile.NoDelimiterIn(Lines(ls[i]))
    ensures StendhalFile.NoDelimiterIn(Lines(Join(ls, "\n")))
    decreases |ls|
  {
    if |ls| > 1 {
      assert forall i :: 0 <= i < |ls[1..]| ==> ls[1..][i] == ls[i + 1];
      JoinClean(ls[1..]);
      LinesOfConcat(ls[0], Join(ls[1..], "\n"));
    }
  }

  lemma FrontPageClean(form: Form, number: nat, total: nat)
    requires FormFitsFile(form)
    ensures StendhalFile.NoDelimiterIn(Lines(Assembler.FrontPage(form.title, form.author, form.bookType,
                                                    form.libraryName, Some(number), Some(total))))
  {
    FrontLinesEach(form, number, total);
    JoinClean(Assembler.FrontLines(form.title, form.author, form.bookType, form.libraryName, Some(number), Some(total)));
  }

  lemma FrontLinesEach(form: Form, number: nat, total: nat)
    requires FormFitsFile(form)
    ensures var ls := Assembler.FrontLines(form.title, form.author, form.bookType, form.libraryName,
                                           Some(number), Some(total));
      forall i :: 0 <= i < |ls| ==> StendhalFile.NoDelimiterIn(Lines(ls[i]))
  {
    FrontLinesClean(form, number, total);
    Assembler.EveryFrontLine(s => StendhalFile.NoDelimiterIn(Lines(s)), form.title, form.author, form.bookType,
                             form.libraryName, Some(number), Some(total));
  }

  /** The distinct lines of the front template have no delimiter line. */
  lemma FrontLinesClean(form: Form, number: nat, total: nat)
    requires FormFitsFile(form)
    ensures StendhalFile.NoDelimiterIn(Lines("\U{A7}4\U{A7}l\U{A7}o" + form.title))
    ensures StendhalFile.NoDelimiterIn(Lines("\U{A7}7by " + form.author))
    ensures StendhalFile.NoDelimiterIn(Lines(""))
    ensures StendhalFile.NoDelimiterIn(Lines(Assembler.Subtitle(Some(number), Some(total))))
    ensures StendhalFile.NoDelimiterIn(Lines("\U{A7}c✧ \U{A7}7\U{A7}o" + form.bookType + " \U{A7}c✧"))
    ensures StendhalFile.NoDelimiterIn(Lines("\U{A7}4\U{A7}o" + form.libraryName + " \U{A7}r"))
  {
    WrappersFit();
    PrefixedLineClean("\U{A7}4\U{A7}l\U{A7}o", form.title);
    PrefixedLineClean("\U{A7}7by ", form.author);
    Assembler.SubtitleSingleLine(Some(number), Some(total));
    LineClean(Assembler.Subtitle(Some(number), Some(total)));
    LineClean("");
    WrappedEntryClean("\U{A7}c✧ \U{A7}7\U{A7}o", form.bookType, " \U{A7}c✧");
    WrappedEntryClean("\U{A7}4\U{A7}o", form.libraryName, " \U{A7}r");
  }

  lemma EndPageClean(form: Form, number: nat, total: nat)
    requires FormFitsFile(form)
    ensures StendhalFile.NoDelimiterIn(Lines(Assembler.EndPage(form.title, form.author, Assembler.BroughtBy(form.broughtBy),
                                                  form.libraryName, number, total)))
  {
    EndLinesEach(form, number, total);
    JoinClean(Assembler.EndLines(form.title, form.author, Assembler.BroughtBy(form.broughtBy),
                                 form.libraryName, number, total));
  }

  lemma EndLinesEach(form: Form, number: nat, total: nat)
    requires FormFitsFile(form)
    ensures var ls := Assembler.EndLines(form.title, form.author, Assembler.BroughtBy(form.broughtBy),
                                         form.libraryName, number, total);
      forall i :: 0 <= i < |ls| ==> StendhalFile.NoDelimiterIn(Lines(ls[i]))
  {
    EndLinesClean(form, number, total);
    EndFixedLinesClean();
    EndEntriesClean(form);
    Assembler.EveryEndLine(s => StendhalFile.NoDelimiterIn(Lines(s)), form.title, form.author,
                           Assembler.BroughtBy(form.broughtBy), form.libraryName, number, total);
  }

  /** The fixed lines of the end template have no delimiter line. */
  lemma EndFixedLinesClean()
    ensures StendhalFile.NoDelimiterIn(Lines("")) && StendhalFile.NoDelimiterIn(Lines("  "))
    ensures StendhalFile.NoDelimiterIn(Lines("\U{A7}7Brought in-game by:"))
  {
    LineClean("");
    LineClean("  ");
    LineClean("\U{A7}7Brought in-game by:");
  }

  /** The one-line lines of the end template have no delimiter line. */
  lemma EndLinesClean(form: Form, number: nat, total: nat)
    requires SingleLine(form.title) && SingleLine(form.author)
    ensures StendhalFile.NoDelimiterIn(Lines("\U{A7}4\U{A7}l\U{A7}oEnd of ✦ " + form.title + " ✦"))
    ensures StendhalFile.NoDelimiterIn(Lines(Assembler.BookOf(NatToString(number), NatToString(total))))
    ensures StendhalFile.NoDelimiterIn(Lines("\U{A7}7by " + form.author))
  {
    WrappersFit();
    SingleLineConcat("\U{A7}4\U{A7}l\U{A7}oEnd of ✦ ", form.title);
    PrefixedLineClean("\U{A7}4\U{A7}l\U{A7}oEnd of ✦ " + form.title, " ✦");
    NatToStringSingleLine(number);
    NatToStringSingleLine(total);
    Assembler.BookOfSingleLine(NatToString(number), NatToString(total));
    LineClean(Assembler.BookOf(NatToString(number), NatToString(total)));
    PrefixedLineClean("\U{A7}7by ", form.author);
  }

  /** The end template's lines that carry the "brought by" name and the
      library name have no delimiter line. */
  lemma EndEntriesClean(form: Form)
    requires FormFitsFile(form)
    ensures StendhalFile.NoDelimiterIn(Lines("\U{A7}b✧ \U{A7}6" + Assembler.BroughtBy(form.broughtBy) + "\U{A7}b ✧"))
    ensures StendhalFile.NoDelimiterIn(Lines("\U{A7}4" + form.libraryName))
  {
    WrappersFit();
    BroughtByClean(form.broughtBy);
    WrappedEntryClean("\U{A7}b✧ \U{A7}6", Assembler.BroughtBy(form.broughtBy), "\U{A7}b ✧");
    assert "\U{A7}4" + form.libraryName == "\U{A7}4" + form.libraryName + "";
    WrappedEntryClean("\U{A7}4", form.libraryName, "");
  }

  /** The "brought by" name has no delimiter line when the entry has none:
      the default "Anonymous" has none. */
  lemma BroughtByClean(entry: string)
    requires StendhalFile.NoDelimiterIn(Lines(entry))
    ensures StendhalFile.NoDelimiterIn(Lines(Assembler.BroughtBy(entry)))
  {
    if entry == "" {
      LineClean("Anonymous");
    }
  }

  /** The formatting prefixes and closing marks around the entries of the
      templates: each is one line, each prefix starts with the section sign
      and no mark ends in a blank. */
  lemma WrappersFit()
    ensures SingleLine("\U{A7}4\U{A7}l\U{A7}o") && SingleLine("\U{A7}7by ") && SingleLine("\U{A7}4\U{A7}l\U{A7}oEnd of ✦ ")
    ensures SingleLine("\U{A7}c✧ \U{A7}7\U{A7}o") && SingleLine(" \U{A7}c✧") && SingleLine(" ✦")
    ensures SingleLine("\U{A7}4\U{A7}o") && SingleLine(" \U{A7}r")
    ensures SingleLine("\U{A7}b✧ \U{A7}6") && SingleLine("\U{A7}b ✧") && SingleLine("\U{A7}4")
    ensures "\U{A7}4\U{A7}l\U{A7}o"[0] == "\U{A7}7by "[0] == "\U{A7}4\U{A7}l\U{A7}oEnd of ✦ "[0] == '\U{A7}'
    ensures "\U{A7}c✧ \U{A7}7\U{A7}o"[0] == "\U{A7}4\U{A7}o"[0] == "\U{A7}b✧ \U{A7}6"[0] == "\U{A7}4"[0] == '\U{A7}'
    ensures " \U{A7}c✧"[|" \U{A7}c✧"| - 1] == '✧' && " \U{A7}r"[|" \U{A7}r"| - 1] == 'r'
    ensures "\U{A7}b ✧"[|"\U{A7}b ✧"| - 1] == '✧'
  {
  }

  /** Adding a line that is not the delimiter keeps a text free of
      delimiter lines. */
  lemma CleanSnoc(front: string, last: string)
    requires StendhalFile.NoDelimiterIn(Lines(front)) && SingleLine(last) && last != StendhalFile.Delimiter
    ensures StendhalFile.NoDelimiterIn(Lines(front + "\n" + last))
  {
    LinesOfConcat(front, last);
    LinesOfSingleLine(last);
  }

  /** No line of the seal page is the delimiter: every line is empty or
      starts with a blank. */
  lemma SealPageClean()
    ensures StendhalFile.NoDelimiterIn(Lines(Assembler.SealPage))
  {
    NineLinesClean("", "", "    ", "", "       \U{A7}b✧ \U{A7}6W\U{A7}bX\U{A7}6Y\U{A7}bZ \U{A7}b✧", "          \U{A7}6SEAL",
                   "           \U{A7}bOF", "       \U{A7}6APPROVAL", "");
  }

  /** Nine lines, none of them the delimiter, joined by line breaks as the
      seal page is. The lines are parameters so that the solver works on
      the page's shape and not on its characters. */
  lemma NineLinesClean(l1: string, l2: string, l3: string, l4: string, l5: string,
                       l6: string, l7: string, l8: string, l9: string)
    requires SingleLine(l1) && SingleLine(l2) && SingleLine(l3) && SingleLine(l4) && SingleLine(l5)
    requires SingleLine(l6) && SingleLine(l7) && SingleLine(l8) && SingleLine(l9)
    requires l1 != StendhalFile.Delimiter && l2 != StendhalFile.Delimiter && l3 != StendhalFile.Delimiter
    requires l4 != StendhalFile.Delimiter && l5 != StendhalFile.Delimiter && l6 != StendhalFile.Delimiter
    requires l7 != StendhalFile.Delimiter && l8 != StendhalFile.Delimiter && l9 != StendhalFile.Delimiter
    ensures StendhalFile.NoDelimiterIn(Lines(l1 + "\n" + l2 + "\n" + l3 + "\n" + l4 + "\n" + l5 + "\n"
                                + l6 + "\n" + l7 + "\n" + l8 + "\n" + l9))
  {
    LinesOfSingleLine(l1);
    var p2 := l1 + "\n" + l2;
    CleanSnoc(l1, l2);
    var p3 := p2 + "\n" + l3;
    CleanSnoc(p2, l3);
    var p4 := p3 + "\n" + l4;
    CleanSnoc(p3, l4);
    var p5 := p4 + "\n" + l5;
    CleanSnoc(p4, l5);
    var p6 := p5 + "\n" + l6;
    CleanSnoc(p5, l6);
    var p7 := p6 + "\n" + l7;
    CleanSnoc(p6, l7);
    var p8 := p7 + "\n" + l8;
    CleanSnoc(p7, l8);
    CleanSnoc(p8, l9);
  }
}
