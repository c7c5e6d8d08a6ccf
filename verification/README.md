# Stendhal's Quill — the book pipeline in Dafny

Stendhal's Quill turns a plain-text or PDF book into files that a Minecraft
book mod (Stendhal) can import. This project models the pure text pipeline
of `stendhals_quill.py` and proves properties about it. The stages are:

1. **Cleaning** (`process_text`). Links are removed. Then every occurrence of
   the sensitive phrase "bad word", in any letter case, becomes `[redacted]`.
2. **Pagination** (`split_into_pages`). The text is cut into paragraphs at
   blank lines.
   - A paragraph that starts with the section sign `§` (the game's
     formatting-code marker) becomes one page, verbatim.
   - Any other paragraph is cut into words, and each word is followed by a
     blank in a page buffer. A word joins the buffer only while the buffer
     stays within 220 characters. A word that does not fit starts a new
     page, alone on it if the word itself is longer.
3. **Assembly** (the book loops in `process_book`). The pages are cut into
   books of at most 97 pages. Each book then gets three decorative pages:
   - a front page that says "Book i of N";
   - the "seal of approval" page;
   - an end page.
4. **Writing** (`write_stendhal_files`). Each book goes to a file
   `<title with blanks as underscores>_Book_<i>.stendhal`. The file holds a
   title line, an author line, a `pages:` line, and each page preceded by a
   `#- ` delimiter line.

The modules follow these stages:

- `Text` gives the exact meaning of the Python string built-ins used:
  - `str.isspace`, with the full Unicode whitespace set;
  - `split()` and `split(sep)`;
  - `strip()`, `join` and `str(n)`.
- `Redaction` covers the case-insensitive replacement done by `re.sub`,
  `filter_sensitive_words` and `process_text`.
- `Paginator` has two versions of `split_into_pages`:
  - the code as written, with a string buffer (`FillFrom`, `PagesFrom`,
    `SplitIntoPages`);
  - an independent packing on lists of words (`Greedy`, `Groups`,
    `WrapParagraph`).

  `FillSimulates` proves that the two agree. All page properties are proved
  on the word lists.
- `Assembler` holds the three page templates, the chunking loop (`ChunkFrom`)
  and the decoration step (`DecorateBook`).
- `StendhalFile` holds the file name, the file text (`Render`) and a reader
  for the format (`ReadFile`). The reader is the partner of the writer:
  reading a written file gives the book back.
- `Pipeline` puts it all together:
  - the required-field check;
  - the choice between the PDF and the text reading;
  - the books and the written files.

Behaviour of the code that is easy to misread:

- **The "Hello world" example.** With a limit of 10, "Hello world. This is a
  test." is paginated as `["Hello", "world.", "This is a", "test."]`
  (`Paginator.HelloWorldExample`). The buffer "This is a " is exactly 10
  characters, which the test `<=` admits.
- **Words run together.** The configured phrase is "bad word" with a blank in
  it. So "Thisisabadwordhere" is left unchanged
  (`Redaction.JoinedWordsNotRedacted`).
- **Empty input.** An empty page list gives no book at all, because the
  chunking loop never runs (`Assembler.ChunkProperties`,
  `Pipeline.EmptyContentNoFiles`).
- **Unused normalisation.** `filter_sensitive_words` computes an NFKD /
  casefold version of the text but never uses it. The substitution works on
  the original text with `re.IGNORECASE`. Only the word is normalised before
  it becomes the pattern, and "bad word" is unchanged by that.
- **Cleaning of PDFs.** A PDF's text is cleaned inside
  `extract_text_from_pdf`. The page texts are each followed by a blank line
  before cleaning. So both input kinds are cleaned exactly once.

## Model

| member | source | states |
|---|---|---|
| Text.SplitOn | stendhals_quill.py:100 | `text.split('\n\n')`: joining the pieces with the separator gives the text back, and each cut is at the leftmost occurrence, so the pieces are determined uniquely |
| Text.WordsOfJoin | stendhals_quill.py:107 | `split()` of whitespace-free words joined by single blanks gives exactly those words back |
| Text.NatToStringInjective | stendhals_quill.py:351 | different book numbers are rendered as different decimal strings |
| Text.ParseNatToString | stendhals_quill.py:351 | the decimal rendering of a book number parses back to the number |
| Paginator.FillSimulates | stendhals_quill.py:107-113 | the string-buffer word loop emits exactly the greedy word groups joined by blanks, and its buffer holds the open group's words, each followed by a blank |
| Paginator.SplitIntoPagesByParagraph | stendhals_quill.py:98-122 | the pages are each paragraph's own pages in paragraph order; a section-sign paragraph is one page equal to it, whatever its length; the buffer is empty between paragraphs, so the final flush adds nothing |
| Paginator.GreedyInvariant | stendhals_quill.py:108-113 | the word loop's invariant: words kept in order and unsplit, every page within the limit unless it is one word, only the first page possibly empty, and every break forced by a word that did not fit |
| Paginator.WrapParagraphPages | stendhals_quill.py:107-117 | the pages of a paragraph: its words in order; each page is its words joined by one blank and is shorter than the limit or holds one word; an empty page occurs only first, for a first word of at least `max_chars` characters; every page break is forced; no pages exactly for a paragraph without words |
| Paginator.NoPages | stendhals_quill.py:98-122 | the text gives no page exactly when no paragraph starts with the section sign and no paragraph has a word |
| Paginator.EmptyTextNoPages | stendhals_quill.py:98-122 | the empty text gives no page |
| Paginator.PageKinds | stendhals_quill.py:100-117 | every page is either a section-sign paragraph of the text, verbatim, or a single line of words joined by single blanks |
| Paginator.HelloWorldExample | stendhals_quill.py:87-122 | "Hello world. This is a test." with a limit of 10 gives "Hello", "world.", "This is a", "test." |
| Redaction.FirstMatch | stendhals_quill.py:158-159 | the result is the leftmost case-insensitive occurrence at or after the start index, or none exists |
| Redaction.ReplaceLeftmost | stendhals_quill.py:159 | the substitution copies the text before the leftmost occurrence, writes the replacement, and continues after the occurrence |
| Redaction.Unchanged | stendhals_quill.py:159 | a text without any occurrence is returned unchanged |
| Redaction.ReplaceGrows | stendhals_quill.py:159 | a replacement longer than the pattern never shortens the text, and lengthens it when there is an occurrence |
| Redaction.FilterIsOneReplacement | stendhals_quill.py:149-160 | with the single configured word, the filter is one case-insensitive substitution of "bad word" by `[redacted]` |
| Redaction.NoSensitiveWordLeft | stendhals_quill.py:156-159 | after the substitution no occurrence of "bad word" remains in any case, including ones that the marker could form with its neighbours |
| Redaction.FilterProperties | stendhals_quill.py:139-161 | the filtered text has no occurrence; the filter changes the text exactly when it had one; filtering twice is filtering once |
| Redaction.ProcessTextRedacts | stendhals_quill.py:163-175 | the cleaned text has no occurrence of the word, and cleaning only removes links when the link-free text has none |
| Redaction.NoBlankNoMatch | stendhals_quill.py:149 | a text without a blank cannot contain the two-word phrase |
| Redaction.JoinedWordsNotRedacted | stendhals_quill.py:149-159 | "Thisisabadwordhere" passes the filter unchanged |
| Redaction.MixedCaseRedacted | stendhals_quill.py:158-159 | "a BAD Word!" becomes "a [redacted]!": the match ignores letter case |
| Assembler.BroughtBy | stendhals_quill.py:298 | the "brought by" name is the entry when the entry is non-empty, and "Anonymous" when it is empty |
| Assembler.FrontPageLines | stendhals_quill.py:29-41 | for a one-line title and author, the front page's lines start with the styled title, the "by" line, an empty line, and the subtitle, which is empty without a book number and "Book i of N" in red bold with one |
| Assembler.EndPageLines | stendhals_quill.py:75-85 | for a one-line title, the end page starts with "End of ✦ title ✦" and then "Book i of N" |
| Assembler.PagesShowNumbering | stendhals_quill.py:29-76 | the front and the end page of book i of N both contain "Book i of N" |
| Assembler.ChunkFromInvariant | stendhals_quill.py:322-328 | the chunking loop's invariant: the books in order are the open book followed by the remaining pages; every book but the last is full; the last holds 1 to 97 pages; the book count is the ceiling of the pages over 97 |
| Assembler.ChunkProperties | stendhals_quill.py:317-328 | chunking keeps every page in order, fills all books but the last to 97, leaves no empty book, makes ceil(n/97) books, and makes none exactly for no pages |
| Assembler.DecorateBookShape | stendhals_quill.py:333-338 | a decorated book has three more pages than its content: the front page numbered i of N, then the seal page, the content, and the end page with the same numbering |
| Assembler.AssembleProperties | stendhals_quill.py:317-338 | the assembled books: ceil(n/97) of them, none exactly for no pages, each of 4 to 100 pages, all but the last of 100, framed by front, seal and end pages numbered i of N; stripping the decoration and reading the books in order gives back the pages |
| Assembler.BooksContents | stendhals_quill.py:322-338 | the content pages of the books, read in order, are the original pages |
| Assembler.HundredFiftyPages | stendhals_quill.py:320-338 | 150 pages give two books of 100 and 56 pages, with front pages numbered 1 of 2 and 2 of 2 |
| StendhalFile.ReplaceChar | stendhals_quill.py:351 | `str.replace` of one character: same length; each occurrence is replaced and every other character is kept |
| StendhalFile.FileNameShape | stendhals_quill.py:351 | the file name is the title with every blank turned into an underscore, then "_Book_", the number and ".stendhal"; it contains no blank |
| StendhalFile.FileNamesDistinct | stendhals_quill.py:350-351 | two different book numbers give two different file names for the same title |
| StendhalFile.BlankAndUnderscoreCollide | stendhals_quill.py:351 | titles that differ only by a blank versus an underscore give the same file name |
| StendhalFile.LinesOfBody | stendhals_quill.py:358-361 | the pages part of a file, read as lines, is each page's delimiter line followed by the page's own lines, and then one empty last line |
| StendhalFile.LinesOfRender | stendhals_quill.py:355-361 | for a one-line title and author, a file is three header lines ("title: … - Book i", "author: …", "pages:") followed by the pages part |
| StendhalFile.ReadRender | stendhals_quill.py:355-361 | reading a written file gives back the title with " - Book i", the author and every page, when the title and author are one line and no page has a `#- ` line |
| StendhalFile.DelimiterLineSplitsPage | stendhals_quill.py:360-361 | a page that holds a `#- ` line of its own reads back as two pages, so the condition of `ReadRender` is needed |
| Pipeline.ContentRedacted | stendhals_quill.py:303-310 | whether the input is read as a PDF or as text, the cleaned text holds no occurrence of the sensitive word |
| Pipeline.FilesPerBook | stendhals_quill.py:350-351 | one file per book, no two with the same name |
| Pipeline.RunOutcome | stendhals_quill.py:287-341 | the run stops with an error exactly when the input file, title, author or book type is missing; otherwise it writes one file per book under distinct names, and none exactly when the cleaned text gives no page |
| Pipeline.EmptyContentNoFiles | stendhals_quill.py:303-341 | an empty cleaned text writes no file |
| Pipeline.FilesReadBack | stendhals_quill.py:303-361 | every written file reads back as its assembled book, decoration included, when the title and author are one line, no line of the book type, "brought by" name or library name is `#- `, and no section-sign paragraph has a `#- ` line |
| Pipeline.WrittenBooksReadBack | stendhals_quill.py:333-361 | the files written for assembled books read back as those books, when the pages have no `#- ` line, the title and author are one line and no line of the book type, "brought by" name or library name is `#- ` |

## Left out

- The tkinter window, its dialogs, message boxes and the book viewer (`update_book_viewer`, `create_page_matrix`, `show_page`). They are display only.
- Logging. It has no effect on the result.
- Opening, reading and writing files, and the default output folder (lines 292-293). The model's output is the list of file names and texts that would be written.
- Exceptions raised by the file system or by the PDF library. They are outside the pure pipeline.
- PDF text extraction by PyPDF2. The text of each PDF page is an input (`Input.pdfPages`).
- `remove_links` (lines 124-137). Its three regular expressions are not modelled; the link remover is a parameter of `ProcessText`, and every property holds for any link remover.
- The NFKD / casefold normalisation in `filter_sensitive_words` (lines 151-157). The normalised text (line 154) is never used. The pattern compiled at line 158 is the normalised word (line 157), which for "bad word" is the word itself. `Redaction.FilterWith` does not normalise its words, so it matches the source only for this word list. Case-insensitive matching is modelled as ASCII case folding. This is exact for the pattern "bad word", because no non-ASCII character matches any of its letters under Python's case-insensitive matching.
- `Text.SplitOn`: defined only for a non-empty separator. The source calls `split` with a separator only for "\n\n" (line 100); the model's own file reader also uses it with "\n".
- Pipeline.FilesReadBack: requires a one-line title and author, no `#- ` line in the book type, "brought by" name or library name, and no `#- ` line in a section-sign paragraph. The title and author go into the header lines (stendhals_quill.py:355-356), so a line break there breaks the header. A `#- ` line in a page splits the page, as `StendhalFile.DelimiterLineSplitsPage` shows. The conditions are sufficient, not necessary: the first line of a book type or library name always follows a section-sign prefix, so a `#- ` first line there would be harmless. The source rejects none of these inputs.
- Pipeline.WrittenBooksReadBack: requires the same of the form entries as `Pipeline.FilesReadBack`, and no `#- ` line in any page, for the same reasons.
- StendhalFile.ReadRender: requires a one-line title and author and no `#- ` line in any page, for the same reason.
- Assembler.FrontPageLines: states only the first four lines, which carry the title, the author and the numbering. The other lines, including the book type and the library name, are given by `FrontLines` and are not restated.
- Assembler.EndPageLines: states only the first two lines, which carry the title and the numbering. The other lines, including the author, who brought the book and the library name, are given by `EndLines` and are not restated.
