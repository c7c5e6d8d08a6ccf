/** The pure part of `write_stendhal_files` (stendhals_quill.py, lines
    347-363): the name of book i's file and the text written into it. A
    reader of that text is the partner the writer is proved against. */
module StendhalFile {
  import opened Text

  /** The line that opens every page in the file. */
  const Delimiter: string := "#- "

  /** `s.replace(a, b)` for one-character `a` and `b`. */
  function ReplaceChar(s: string, a: char, b: char): (r: string)
    ensures |r| == |s|
    ensures forall i :: 0 <= i < |s| ==> r[i] == (if s[i] == a then b else s[i])
  {
    if s == [] then []
    else [if s[0] == a then b else s[0]] + ReplaceChar(s[1..], a, b)
  }

  /** The file name of book `number` (1-based) of a book titled `title`. */
  function FileName(title: string, number: nat): (name: string) {
    ReplaceChar(title, ' ', '_') + "_Book_" + NatToString(number) + ".stendhal"
  }

  /** The file name keeps the title, each blank turned into an underscore,
      contains no blank at all, and ends in "_Book_<number>.stendhal". */
  lemma FileNameShape(title: string, number: nat)
    ensures var name := FileName(title, number);
      && |name| == |title| + 15 + |NatToString(number)|
      && (forall i :: 0 <= i < |title| ==>
            name[i] == (if title[i] == ' ' then '_' else title[i]))
      && (forall i :: 0 <= i < |name| ==> name[i] != ' ')
      && name[|title|..] == "_Book_" + NatToString(number) + ".stendhal"
  {
    var d := NatToString(number);
    var name := FileName(title, number);
    var t := ReplaceChar(title, ' ', '_');
    assert name == t + ("_Book_" + d + ".stendhal");
    forall i | 0 <= i < |name|
      ensures name[i] != ' '
    {
      if i < |t| {
      } else if i < |t| + 6 {
        assert name[i] == "_Book_"[i - |t|];
      } else if i < |t| + 6 + |d| {
        assert name[i] == d[i - |t| - 6];
        assert IsDigit(d[i - |t| - 6]);
      } else {
        assert name[i] == ".stendhal"[i - |t| - 6 - |d|];
      }
    }
  }

  /** Different books of one title get different files. */
  lemma FileNamesDistinct(title: string, i: nat, j: nat)
    requires i != j
    ensures FileName(title, i) != FileName(title, j)
  {
    if FileName(title, i) == FileName(title, j) {
      var t := ReplaceChar(title, ' ', '_');
      var a := NatToString(i);
      var b := NatToString(j);
      assert FileName(title, i) == (t + "_Book_") + a + ".stendhal";
      assert FileName(title, j) == (t + "_Book_") + b + ".stendhal";
      assert |a| == |b|;
      assert a == FileName(title, i)[|t| + 6..|t| + 6 + |a|];
      assert b == FileName(title, j)[|t| + 6..|t| + 6 + |b|];
      NatToStringInjective(i, j);
    }
  }

  /** Titles that differ only in a blank against an underscore collide:
      "Old Tales" and "Old_Tales" both write "Old_Tales_Book_1.stendhal". */
  lemma BlankAndUnderscoreCollide(a: string, b: string, number: nat)
    ensures FileName(a + " " + b, number) == FileName(a + "_" + b, number)
  {
    var r1 := ReplaceChar(a + " " + b, ' ', '_');
    var r2 := ReplaceChar(a + "_" + b, ' ', '_');
    forall i | 0 <= i < |r1|
      ensures r1[i] == r2[i]
    {
      if i < |a| {
        assert (a + " " + b)[i] == a[i] == (a + "_" + b)[i];
      } else if i > |a| {
        assert (a + " " + b)[i] == b[i - |a| - 1] == (a + "_" + b)[i];
      }
    }
    assert r1 == r2;
  }

  // ---------------------------------------------------------------------
  // Writing
  // ---------------------------------------------------------------------

  /** The pages part of the file: each page after a delimiter line and
      followed by a line break. */
  function Body(pages: seq<string>): string {
    if pages == [] then ""
    else Delimiter + "\n" + pages[0] + "\n" + Body(pages[1..])
  }

  /** The text written for book `number` of a book titled `title`. */
  function Render(title: string, author: string, number: nat, pages: seq<string>): (text: string) {
    "title: " + title + " - Book " + NatToString(number) + "\n"
    + "author: " + author + "\n"
    + "pages:\n"
    + Body(pages)
  }

  /** The lines of the pages part, without the empty line after the last
      line break: per page, the delimiter line and the page's own lines. */
  function PageLines(pages: seq<string>): seq<string> {
    if pages == [] then []
    else [Delimiter] + Lines(pages[0]) + PageLines(pages[1..])
  }

  lemma {:induction false} LinesOfBody(pages: seq<string>)
    ensures Lines(Body(pages)) == PageLines(pages) + [""]
  {
    if pages == [] {
      LinesOfSingleLine("");
    } else {
      LinesOfBody(pages[1..]);
      assert SingleLine(Delimiter);
      LinesOfPage(Delimiter, pages[0], Body(pages[1..]));
      AppendAssoc([Delimiter] + Lines(pages[0]), PageLines(pages[1..]), [""]);
    }
  }

  /** Regrouping a concatenation. Like the other list lemmas of this
      module it is stated for any element type, so that the solver does not
      look into the strings. */
  lemma AppendAssoc<X>(a: seq<X>, b: seq<X>, c: seq<X>)
    ensures a + (b + c) == a + b + c
  {
  }

  /** A delimiter-like line `d`, a page and the text after it. */
  lemma LinesOfPage(d: string, page: string, rest: string)
    requires SingleLine(d)
    ensures Lines(d + "\n" + page + "\n" + rest) == [d] + Lines(page) + Lines(rest)
  {
    var tail := page + "\n" + rest;
    assert d + "\n" + page + "\n" + rest == d + "\n" + tail;
    LinesCons(d, tail);
    LinesOfConcat(page, rest);
    ConsAssoc(d, Lines(page), Lines(rest));
  }

  /** Regrouping a line in front of two line lists. */
  lemma ConsAssoc<X>(d: X, a: seq<X>, b: seq<X>)
    ensures [d] + (a + b) == [d] + a + b
  {
  }

  /** For a one-line title and author the file is three header lines, then
      each page's delimiter line and lines, and an empty last line left by
      the final line break. */
  lemma LinesOfRender(title: string, author: string, number: nat, pages: seq<string>)
    requires SingleLine(title) && SingleLine(author)
    ensures Lines(Render(title, author, number, pages))
         == ["title: " + title + " - Book " + NatToString(number), "author: " + author, "pages:"]
            + PageLines(pages) + [""]
  {
    var h1 := "title: " + title + " - Book " + NatToString(number);
    var h2 := "author: " + author;
    HeaderSingleLine(title, author, number);
    assert Render(title, author, number, pages) == h1 + "\n" + h2 + "\n" + "pages:" + "\n" + Body(pages);
    LinesOfHeader(h1, h2, "pages:", Body(pages));
    LinesOfBody(pages);
  }

  lemma HeaderSingleLine(title: string, author: string, number: nat)
    requires SingleLine(title) && SingleLine(author)
    ensures SingleLine("title: " + title + " - Book " + NatToString(number))
    ensures SingleLine("author: " + author)
  {
    NatToStringSingleLine(number);
    SingleLineConcat("title: ", title);
    SingleLineConcat("title: " + title, " - Book ");
    SingleLineConcat("title: " + title + " - Book ", NatToString(number));
    SingleLineConcat("author: ", author);
  }

  lemma LinesOfHeader(h1: string, h2: string, h3: string, rest: string)
    requires SingleLine(h1) && SingleLine(h2) && SingleLine(h3)
    ensures Lines(h1 + "\n" + h2 + "\n" + h3 + "\n" + rest) == [h1, h2, h3] + Lines(rest)
  {
    var r3 := h3 + "\n" + rest;
    var r2 := h2 + "\n" + r3;
    assert h1 + "\n" + h2 + "\n" + h3 + "\n" + rest == h1 + "\n" + r2;
    LinesCons(h3, rest);
    LinesCons(h2, r3);
    LinesCons(h1, r2);
    ConsThree(h1, h2, h3, Lines(rest));
  }

  /** Three header lines in front of a line list. */
  lemma ConsThree<X>(a: X, b: X, c: X, l: seq<X>)
    ensures [a] + ([b] + ([c] + l)) == [a, b, c] + l
  {
  }

  // ---------------------------------------------------------------------
  // Reading
  // ---------------------------------------------------------------------

  /** A book as a reader of the file sees it. */
  datatype StendhalBook = StendhalBook(title: string, author: string, pages: seq<string>)

  predicate StartsWith(s: string, prefix: string) {
    |prefix| <= |s| && s[..|prefix|] == prefix
  }

  /** The number of lines before the next delimiter line. */
  function NextDelimiter(ls: seq<string>): (n: nat)
    ensures n <= |ls|
    ensures forall i :: 0 <= i < n ==> ls[i] != Delimiter
    ensures n < |ls| ==> ls[n] == Delimiter
  {
    if ls == [] || ls[0] == Delimiter then 0 else 1 + NextDelimiter(ls[1..])
  }

  /** The pages of a body's lines: each delimiter line opens a page made of
      the lines up to the next delimiter; lines before the first delimiter
      make the body malformed. */
  function ReadBody(ls: seq<string>): Option<seq<string>>
    decreases |ls|
  {
    if ls == [] then Some([])
    else if ls[0] != Delimiter then None
    else
      var n := NextDelimiter(ls[1..]);
      match ReadBody(ls[1 + n..])
      case None => None
      case Some(rest) => Some([Join(ls[1..1 + n], "\n")] + rest)
  }

  /** A file's book: the title and author header lines, the "pages:" line,
      the body, and a final line break. */
  function ReadFile(s: string): Option<StendhalBook> {
    var ls := Lines(s);
    if |ls| < 4 || !StartsWith(ls[0], "title: ") || !StartsWith(ls[1], "author: ")
       || ls[2] != "pages:" || ls[|ls| - 1] != ""
    then None
    else
      match ReadBody(ls[3..|ls| - 1])
      case None => None
      case Some(pages) => Some(StendhalBook(ls[0][7..], ls[1][8..], pages))
  }

  /** No line of a page, given as its lines, is a delimiter line. */
  predicate NoDelimiterIn(lines: seq<string>) {
    forall j :: 0 <= j < |lines| ==> lines[j] != Delimiter
  }

  /** No line of any page is a delimiter line. */
  predicate NoDelimiterLine(pages: seq<string>) {
    forall k :: 0 <= k < |pages| ==> NoDelimiterIn(Lines(pages[k]))
  }

  lemma {:induction false} ReadPageLines(pages: seq<string>)
    requires NoDelimiterLine(pages)
    ensures ReadBody(PageLines(pages)) == Some(pages)
  {
    if pages != [] {
      assert NoDelimiterLine(pages[1..]) by {
        forall k | 0 <= k < |pages[1..]|
          ensures NoDelimiterIn(Lines(pages[1..][k]))
        {
          assert pages[1..][k] == pages[k + 1];
        }
      }
      ReadPageLines(pages[1..]);
      assert NoDelimiterIn(Lines(pages[0]));
      ReadOnePage(Lines(pages[0]), PageLines(pages[1..]), pages[1..]);
      Uncons(pages);
    }
  }

  /** A delimiter line, a page's lines and the following pages read as that
      page followed by the following pages. */
  lemma ReadOnePage(first: seq<string>, rest: seq<string>, following: seq<string>)
    requires forall j :: 0 <= j < |first| ==> first[j] != Delimiter
    requires rest == [] || rest[0] == Delimiter
    requires ReadBody(rest) == Some(following)
    ensures ReadBody([Delimiter] + first + rest) == Some([Join(first, "\n")] + following)
  {
    var ls := [Delimiter] + first + rest;
    ConsParts(Delimiter, first, rest);
    NextDelimiterSkips(first, rest);
  }

  /** The parts of a line list made of a delimiter line, a page's lines and
      what follows. */
  lemma ConsParts<X>(d: X, a: seq<X>, b: seq<X>)
    ensures var ls := [d] + a + b;
      && ls != [] && ls[0] == d && ls[1..] == a + b
      && ls[1..1 + |a|] == a && ls[1 + |a|..] == b
  {
    var ls := [d] + a + b;
    assert ls[1..] == a + b;
    assert ls[1..1 + |a|] == a;
    assert ls[1 + |a|..] == b;
  }

  lemma {:induction false} NextDelimiterSkips(first: seq<string>, rest: seq<string>)
    requires forall j :: 0 <= j < |first| ==> first[j] != Delimiter
    requires rest == [] || rest[0] == Delimiter
    ensures NextDelimiter(first + rest) == |first|
  {
    if first == [] {
      assert first + rest == rest;
    } else {
      NextDelimiterSkips(first[1..], rest);
      assert (first + rest)[0] == first[0];
      assert (first + rest)[1..] == first[1..] + rest;
    }
  }

  /** Reading a written file: the title as written (with " - Book i"
      appended) and the author come back whole, and the pages are what the
      reader makes of the pages part. */
  lemma ReadRenderHeader(title: string, author: string, number: nat, pages: seq<string>)
    requires SingleLine(title) && SingleLine(author)
    ensures ReadFile(Render(title, author, number, pages))
         == match ReadBody(PageLines(pages))
            case None => None
            case Some(read) => Some(StendhalBook(title + " - Book " + NatToString(number), author, read))
  {
    var h1 := "title: " + title + " - Book " + NatToString(number);
    var h2 := "author: " + author;
    LinesOfRender(title, author, number, pages);
    var ls := Lines(Render(title, author, number, pages));
    HeaderParts(h1, h2, PageLines(pages));
    assert h1[..7] == "title: ";
    assert h1[7..] == title + " - Book " + NatToString(number);
    assert h2[..8] == "author: ";
    assert h2[8..] == author;
  }

  /** The two header lines and the body of a line list. */
  lemma HeaderParts<X>(h1: X, h2: X, body: seq<X>)
    ensures var ls := [h1, h2] + body;
      ls[0] == h1 && ls[1] == h2 && ls[2..] == body
  {
  }

  /** Reading a written file gives back the book: the title as written
      (with " - Book i" appended), the author and every page, as long as the
      title and author are one line each and no page holds a line that is
      exactly the delimiter. */
  lemma ReadRender(title: string, author: string, number: nat, pages: seq<string>)
    requires SingleLine(title) && SingleLine(author)
    requires NoDelimiterLine(pages)
    ensures ReadFile(Render(title, author, number, pages))
         == Some(StendhalBook(title + " - Book " + NatToString(number), author, pages))
  {
    ReadRenderHeader(title, author, number, pages);
    ReadPageLines(pages);
  }

  /** A page holding the delimiter as a line of its own breaks the file
      apart: the page made of a line `a`, the delimiter line and a line `b`
      reads back as the two pages `a` and `b`. */
  lemma DelimiterLineSplitsPage(title: string, author: string, number: nat, a: string, b: string)
    requires SingleLine(title) && SingleLine(author)
    requires SingleLine(a) && SingleLine(b) && a != Delimiter && b != Delimiter
    ensures ReadFile(Render(title, author, number, [a + "\n" + Delimiter + "\n" + b]))
         == Some(StendhalBook(title + " - Book " + NatToString(number), author, [a, b]))
  {
    PageSplits(a, b);
    ReadRenderHeader(title, author, number, [a + "\n" + Delimiter + "\n" + b]);
  }

  lemma PageSplits(a: string, b: string)
    requires SingleLine(a) && SingleLine(b) && a != Delimiter && b != Delimiter
    ensures ReadBody(PageLines([a + "\n" + Delimiter + "\n" + b])) == Some([a, b])
  {
    var p := a + "\n" + Delimiter + "\n" + b;
    assert SingleLine(Delimiter);
    LinesOfSingleLine(b);
    LinesCons(Delimiter, b);
    assert p == a + "\n" + (Delimiter + "\n" + b);
    LinesCons(a, Delimiter + "\n" + b);
    var lp := Lines(p);
    assert lp == [a] + ([Delimiter] + [b]);
    assert PageLines([p]) == [Delimiter] + lp + PageLines([]);
    assert [Delimiter] + ([a] + ([Delimiter] + [b])) + []
        == [Delimiter] + [a] + ([Delimiter] + [b] + []);
    ReadOnePage([b], [], []);
    assert Join([b], "\n") == b;
    assert [Join([b], "\n")] + [] == [b];
    ReadOnePage([a], [Delimiter] + [b] + [], [b]);
    assert Join([a], "\n") == a;
    assert [[a][0]] + [[b][0]] == [a, b];
  }
}
