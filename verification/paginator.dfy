/** The paginator of stendhals_quill.py (`split_into_pages`): the text is cut
    into paragraphs at blank lines; a paragraph that starts with the section
    sign (the game's formatting-code marker) becomes one page verbatim; every
    other paragraph is split into words that are packed greedily into a page
    buffer of at most `maxChars` characters, each word followed by a blank.

    `FillFrom`, `PagesFrom` and `SplitIntoPages` follow the code as written,
    with the page buffer as a string.  `Greedy` is the same packing stated on
    lists of words; `FillSimulates` ties the two together and the properties
    of the pages are proved on the word lists. */
module Paginator {
  import opened Text

  const SectionSign: char := '\U{A7}'
  const ParagraphBreak: string := "\n\n"
  const DefaultMaxChars: int := 220

  predicate StartsWithSection(p: string) {
    |p| > 0 && p[0] == SectionSign
  }

  // ---------------------------------------------------------------------
  // The code as written: a string buffer carried through the loops
  // ---------------------------------------------------------------------

  /** The inner word loop: a word joins the buffer, with a trailing blank,
      while the buffer's length plus the word's plus one stays within
      `maxChars`; otherwise the stripped buffer is emitted as a page and the
      buffer restarts with the word.  Returns the pages and the last buffer. */
  function FillFrom(words: seq<string>, maxChars: int, buf: string): (r: (seq<string>, string))
    decreases |words|
  {
    if words == [] then ([], buf)
    else
      var w := words[0];
      if |buf| + |w| + 1 <= maxChars then
        FillFrom(words[1..], maxChars, buf + w + " ")
      else
        var rest := FillFrom(words[1..], maxChars, w + " ");
        ([Strip(buf)] + rest.0, rest.1)
  }

  /** The paragraph loop: a section-sign paragraph is a page of its own and
      leaves the buffer alone; any other paragraph is filled, and a
      non-empty buffer left at its end is emitted and cleared. */
  function PagesFrom(paras: seq<string>, maxChars: int, buf: string): (r: (seq<string>, string))
    decreases |paras|
  {
    if paras == [] then ([], buf)
    else
      var p := paras[0];
      if StartsWithSection(p) then
        var rest := PagesFrom(paras[1..], maxChars, buf);
        ([p] + rest.0, rest.1)
      else
        var filled := FillFrom(Words(p), maxChars, buf);
        if filled.1 != "" then
          var rest := PagesFrom(paras[1..], maxChars, "");
          (filled.0 + [Strip(filled.1)] + rest.0, rest.1)
        else
          var rest := PagesFrom(paras[1..], maxChars, filled.1);
          (filled.0 + rest.0, rest.1)
  }

  /** `split_into_pages(text, max_chars)`, including the final flush after
      the paragraph loop. */
  function SplitIntoPages(text: string, maxChars: int): (pages: seq<string>) {
    var r := PagesFrom(SplitOn(text, ParagraphBreak), maxChars, "");
    if r.1 != "" then r.0 + [Strip(r.1)] else r.0
  }

  // ---------------------------------------------------------------------
  // The same packing on lists of words
  // ---------------------------------------------------------------------

  /** The buffer text holding the words `g`: each word followed by a blank. */
  function Spaced(g: seq<string>): string {
    if g == [] then "" else Spaced(g[..|g| - 1]) + g[|g| - 1] + " "
  }

  /** The number of characters the words `g` take in the buffer. */
  function Width(g: seq<string>): nat {
    if g == [] then 0 else Width(g[..|g| - 1]) + |g[|g| - 1]| + 1
  }

  /** Greedy packing of `ws` onto the partly filled page `cur`: the pages
      closed so far, and the page still open at the end. */
  function Greedy(ws: seq<string>, maxChars: int, cur: seq<string>): (seq<seq<string>>, seq<string>)
    decreases |ws|
  {
    if ws == [] then ([], cur)
    else if Width(cur) + |ws[0]| + 1 <= maxChars then
      Greedy(ws[1..], maxChars, cur + [ws[0]])
    else
      var rest := Greedy(ws[1..], maxChars, [ws[0]]);
      ([cur] + rest.0, rest.1)
  }

  /** The pages of one paragraph, as word lists; the open page is kept when
      it holds a word. */
  function Groups(ws: seq<string>, maxChars: int): seq<seq<string>> {
    var r := Greedy(ws, maxChars, []);
    if r.1 == [] then r.0 else r.0 + [r.1]
  }

  function JoinEach(gs: seq<seq<string>>): seq<string> {
    seq(|gs|, i requires 0 <= i < |gs| => Join(gs[i], " "))
  }

  /** The pages of a paragraph that does not start with the section sign. */
  function WrapParagraph(ws: seq<string>, maxChars: int): seq<string> {
    JoinEach(Groups(ws, maxChars))
  }

  /** The pages one paragraph contributes. */
  function PagesOf(p: string, maxChars: int): seq<string> {
    if StartsWithSection(p) then [p] else WrapParagraph(Words(p), maxChars)
  }

  /** Each paragraph's pages, in paragraph order. */
  function PagesOfAll(paras: seq<string>, maxChars: int): seq<string> {
    Flatten(seq(|paras|, k requires 0 <= k < |paras| => PagesOf(paras[k], maxChars)))
  }

  /** A page fits when its buffer stays within the limit, or it has at most
      one word (a single long word is allowed to overflow alone). */
  predicate Fits(g: seq<string>, maxChars: int) {
    Width(g) <= maxChars || |g| <= 1
  }

  // ---------------------------------------------------------------------
  // Buffer text versus word list
  // ---------------------------------------------------------------------

  lemma {:induction false} JoinSnoc(a: seq<string>, w: string)
    requires a != []
    ensures Join(a + [w], " ") == Join(a, " ") + " " + w
    decreases |a|
  {
    if |a| > 1 {
      assert (a + [w])[1..] == a[1..] + [w];
      JoinSnoc(a[1..], w);
    }
  }

  /** The joined words of a non-empty word list start with its first word's
      first character and end with its last word's last character. */
  lemma {:induction false} JoinEnds(g: seq<string>)
    requires g != [] && AllWords(g)
    ensures var j := Join(g, " ");
      |j| > 0 && j[0] == g[0][0] && j[|j| - 1] == g[|g| - 1][|g[|g| - 1]| - 1]
    decreases |g|
  {
    var j := Join(g, " ");
    assert IsWord(g[0]);
    if |g| > 1 {
      var t := Join(g[1..], " ");
      assert AllWords(g[1..]);
      JoinEnds(g[1..]);
      assert j == g[0] + " " + t;
      assert g[1..][|g| - 2] == g[|g| - 1];
      assert j[|j| - 1] == t[|t| - 1];
    }
  }

  /** The buffer holding `g` is the joined words plus one blank, its length
      is `Width(g)`, and it is empty exactly when `g` is. */
  lemma {:induction false} SpacedIsJoin(g: seq<string>)
    requires AllWords(g)
    ensures |Spaced(g)| == Width(g)
    ensures g == [] <==> Spaced(g) == ""
    ensures g != [] ==> Spaced(g) == Join(g, " ") + " "
    ensures Strip(Spaced(g)) == Join(g, " ")
    decreases |g|
  {
    if g == [] {
      assert Strip("") == "";
    } else {
      var init, w := g[..|g| - 1], g[|g| - 1];
      assert g == init + [w];
      SpacedIsJoin(init);
      if init != [] {
        JoinSnoc(init, w);
      }
      JoinEnds(g);
      StripTrailingBlank(Join(g, " "));
    }
  }

  /** The string-buffer loop computes exactly the greedy packing of word
      lists: every emitted page is the stripped buffer, i.e. its words joined
      by single blanks, and the final buffer holds the open page's words. */
  lemma {:induction false} FillSimulates(ws: seq<string>, maxChars: int, cur: seq<string>)
    requires AllWords(ws) && AllWords(cur)
    ensures var f := FillFrom(ws, maxChars, Spaced(cur));
      var g := Greedy(ws, maxChars, cur);
      f.0 == JoinEach(g.0) && f.1 == Spaced(g.1)
    decreases |ws|
  {
    if ws != [] {
      var w := ws[0];
      assert AllWords(ws[1..]);
      if Width(cur) + |w| + 1 <= maxChars {
        FillFits(ws, maxChars, cur);
        assert AllWords(cur + [w]);
        FillSimulates(ws[1..], maxChars, cur + [w]);
      } else {
        FillBreaks(ws, maxChars, cur);
        FillSimulates(ws[1..], maxChars, [w]);
        JoinEachCons(cur, Greedy(ws[1..], maxChars, [w]).0);
      }
    }
  }

  lemma JoinEachCons(g: seq<string>, gs: seq<seq<string>>)
    ensures JoinEach([g] + gs) == [Join(g, " ")] + JoinEach(gs)
  {
  }

  /** One step of both loops when the word fits on the page. */
  lemma FillFits(ws: seq<string>, maxChars: int, cur: seq<string>)
    requires ws != [] && AllWords(cur)
    requires Width(cur) + |ws[0]| + 1 <= maxChars
    ensures FillFrom(ws, maxChars, Spaced(cur)) == FillFrom(ws[1..], maxChars, Spaced(cur + [ws[0]]))
    ensures Greedy(ws, maxChars, cur) == Greedy(ws[1..], maxChars, cur + [ws[0]])
  {
    SpacedIsJoin(cur);
    assert (cur + [ws[0]])[..|cur|] == cur;
  }

  /** One step of both loops when the word does not fit on the page. */
  lemma FillBreaks(ws: seq<string>, maxChars: int, cur: seq<string>)
    requires ws != [] && AllWords(cur)
    requires Width(cur) + |ws[0]| + 1 > maxChars
    ensures var rest := FillFrom(ws[1..], maxChars, Spaced([ws[0]]));
      FillFrom(ws, maxChars, Spaced(cur)) == ([Join(cur, " ")] + rest.0, rest.1)
    ensures var rest := Greedy(ws[1..], maxChars, [ws[0]]);
      Greedy(ws, maxChars, cur) == ([cur] + rest.0, rest.1)
  {
    SpacedIsJoin(cur);
    SpacedSingle(ws[0]);
  }

  lemma SpacedSingle(w: string)
    ensures Spaced([w]) == w + " "
  {
    assert [w][..0] == [];
  }

  // ---------------------------------------------------------------------
  // Paragraph structure of the output
  // ---------------------------------------------------------------------

  /** One non-section paragraph seen from the paragraph loop: started on an
      empty buffer it emits exactly `WrapParagraph` and leaves the buffer
      empty again. */
  lemma ParagraphFromEmptyBuffer(p: string, maxChars: int)
    requires !StartsWithSection(p)
    ensures var f := FillFrom(Words(p), maxChars, "");
      (if f.1 != "" then f.0 + [Strip(f.1)] else f.0) == WrapParagraph(Words(p), maxChars)
  {
    var ws := Words(p);
    assert Spaced([]) == "";
    FillSimulates(ws, maxChars, []);
    GreedyInvariant(ws, maxChars, []);
    var g := Greedy(ws, maxChars, []);
    assert (g.0 + [g.1])[|g.0|] == g.1;
    SpacedIsJoin(g.1);
    if g.1 != [] {
      assert JoinEach(g.0 + [g.1]) == JoinEach(g.0) + [Join(g.1, " ")];
    }
  }

  lemma {:induction false} PagesFromEmptyBuffer(paras: seq<string>, maxChars: int)
    ensures PagesFrom(paras, maxChars, "") == (PagesOfAll(paras, maxChars), "")
    decreases |paras|
  {
    if paras != [] {
      var p := paras[0];
      PagesFromEmptyBuffer(paras[1..], maxChars);
      var each := seq(|paras|, k requires 0 <= k < |paras| => PagesOf(paras[k], maxChars));
      var tail := seq(|paras| - 1, k requires 0 <= k < |paras| - 1 => PagesOf(paras[1..][k], maxChars));
      assert each[1..] == tail;
      assert PagesOfAll(paras, maxChars) == PagesOf(p, maxChars) + PagesOfAll(paras[1..], maxChars);
      if !StartsWithSection(p) {
        ParagraphFromEmptyBuffer(p, maxChars);
      }
    }
  }

  /** The page list is the concatenation, in paragraph order, of each
      paragraph's own pages: a section-sign paragraph is exactly one page
      equal to it whatever its length, no page mixes two paragraphs, and the
      buffer is empty between paragraphs, so the flush after the paragraph
      loop (lines 119-120) never emits anything. */
  lemma SplitIntoPagesByParagraph(text: string, maxChars: int)
    ensures PagesFrom(SplitOn(text, ParagraphBreak), maxChars, "").1 == ""
    ensures SplitIntoPages(text, maxChars) == PagesOfAll(SplitOn(text, ParagraphBreak), maxChars)
    ensures forall k :: 0 <= k < |SplitOn(text, ParagraphBreak)| && StartsWithSection(SplitOn(text, ParagraphBreak)[k])
              ==> PagesOf(SplitOn(text, ParagraphBreak)[k], maxChars) == [SplitOn(text, ParagraphBreak)[k]]
  {
    PagesFromEmptyBuffer(SplitOn(text, ParagraphBreak), maxChars);
  }

  // ---------------------------------------------------------------------
  // Properties of the greedy packing
  // ---------------------------------------------------------------------

  /** The invariant of the word loop.  With `all` the closed pages followed
      by the open one: the words come out in order and unsplit; the open
      page's words stay at the front of the first page; every page fits; only
      the first page can be empty, and it is exactly when the loop starts on
      an empty page whose first word does not fit; and each page after the
      first starts with a word that did not fit on the page before it. */
  lemma {:induction false} GreedyInvariant(ws: seq<string>, maxChars: int, cur: seq<string>)
    requires AllWords(ws) && AllWords(cur) && Fits(cur, maxChars)
    ensures var r := Greedy(ws, maxChars, cur);
      var all := r.0 + [r.1];
      && Flatten(all) == cur + ws
      && cur <= all[0]
      && (forall j :: 0 <= j < |all| ==> AllWords(all[j]) && Fits(all[j], maxChars))
      && (forall j :: 0 < j < |all| ==> all[j] != [])
      && (forall j :: 0 <= j < |all| - 1 ==> Width(all[j]) + |all[j + 1][0]| + 1 > maxChars)
      && (all[0] == [] <==> cur == [] && (ws == [] || |ws[0]| + 1 > maxChars))
      && (r.1 == [] <==> cur == [] && ws == [])
    decreases |ws|
  {
    var r := Greedy(ws, maxChars, cur);
    var all := r.0 + [r.1];
    if ws == [] {
      assert all == [cur];
      assert Flatten(all) == cur + Flatten([]);
    } else {
      var w := ws[0];
      assert ws == [w] + ws[1..];
      if Width(cur) + |w| + 1 <= maxChars {
        var cur' := cur + [w];
        assert cur'[..|cur|] == cur;
        assert Width(cur') == Width(cur) + |w| + 1;
        GreedyInvariant(ws[1..], maxChars, cur');
      } else {
        assert [w][..0] == [];
        assert Width([w]) == |w| + 1;
        GreedyInvariant(ws[1..], maxChars, [w]);
        var rest := Greedy(ws[1..], maxChars, [w]);
        var all' := rest.0 + [rest.1];
        ConsSnoc(cur, rest.0, rest.1);
        FlattenCons(cur, all');
      }
    }
  }

  /** A head in front of a list with a last element. It is stated for any
      element type, so that the solver does not look into the pages. */
  lemma ConsSnoc<X>(c: X, a: seq<X>, z: X)
    ensures var all' := a + [z];
      && [c] + a + [z] == [c] + all'
      && forall j :: 0 < j < |all'| + 1 ==> ([c] + all')[j] == all'[j - 1]
  {
  }

  function WordsEach(pages: seq<string>): seq<seq<string>> {
    seq(|pages|, i requires 0 <= i < |pages| => Words(pages[i]))
  }

  /** The words of the pages, read in order, are `ws`. */
  predicate WordsInOrder(pages: seq<string>, ws: seq<string>) {
    Flatten(WordsEach(pages)) == ws
  }

  /** Each page is its words joined by single blanks. */
  predicate BlankJoined(pages: seq<string>) {
    forall i :: 0 <= i < |pages| ==> pages[i] == Join(Words(pages[i]), " ")
  }

  /** Each page is shorter than the limit or holds at most one word. */
  predicate WithinLimit(pages: seq<string>, maxChars: int) {
    forall i :: 0 <= i < |pages| ==> |pages[i]| < maxChars || |Words(pages[i])| <= 1
  }

  /** A page is empty exactly when it is the first one and the paragraph's
      first word alone does not fit in the buffer. */
  predicate EmptyOnlyFirst(pages: seq<string>, ws: seq<string>, maxChars: int) {
    forall i :: 0 <= i < |pages| ==>
      (pages[i] == "" <==> i == 0 && |ws| > 0 && |ws[0]| >= maxChars)
  }

  /** Each page but the last was closed because the buffer holding its words
      could not take the first word of the next page. */
  predicate ClosedWhenFull(pages: seq<string>, maxChars: int) {
    forall i :: 0 < i < |pages| ==>
      Words(pages[i]) != [] && Width(Words(pages[i - 1])) + |Words(pages[i])[0]| + 1 > maxChars
  }

  /** The word loop's invariant for a whole paragraph, on the word lists of
      its pages. */
  lemma GroupsShape(ws: seq<string>, maxChars: int)
    requires AllWords(ws)
    ensures var gs := Groups(ws, maxChars);
      && Flatten(gs) == ws
      && (forall j :: 0 <= j < |gs| ==> AllWords(gs[j]) && Fits(gs[j], maxChars))
      && (forall j :: 0 < j < |gs| ==> gs[j] != [] && Width(gs[j - 1]) + |gs[j][0]| + 1 > maxChars)
      && (forall j :: 0 <= j < |gs| ==> (gs[j] == [] <==> j == 0 && |ws[0]| + 1 > maxChars))
      && (gs == [] <==> ws == [])
  {
    GreedyInvariant(ws, maxChars, []);
    var r := Greedy(ws, maxChars, []);
    if ws == [] {
      assert r == ([], []);
    } else {
      assert Groups(ws, maxChars) == r.0 + [r.1];
    }
  }

  /** The pages of a non-section paragraph with words `ws`: its words in
      order and unsplit, each page its words joined by single blanks and
      within the limit unless it is a single word, the empty page only in
      front and only for a first word of `maxChars` characters or more, each
      page break forced by a word that did not fit, and no page at all for a
      paragraph without words.  The buffer of a page is one character longer
      than the page, or empty for the empty page. */
  lemma WrapParagraphPages(ws: seq<string>, maxChars: int)
    requires AllWords(ws)
    ensures WordsInOrder(WrapParagraph(ws, maxChars), ws)
    ensures BlankJoined(WrapParagraph(ws, maxChars))
    ensures WithinLimit(WrapParagraph(ws, maxChars), maxChars)
    ensures EmptyOnlyFirst(WrapParagraph(ws, maxChars), ws, maxChars)
    ensures ClosedWhenFull(WrapParagraph(ws, maxChars), maxChars)
    ensures forall p :: p in WrapParagraph(ws, maxChars) ==>
              Width(Words(p)) == if p == "" then 0 else |p| + 1
    ensures WrapParagraph(ws, maxChars) == [] <==> ws == []
  {
    var pages := WrapParagraph(ws, maxChars);
    var gs := Groups(ws, maxChars);
    GroupsShape(ws, maxChars);
    PagesOfGroups(gs);
    assert BlankJoined(pages) by {
      forall i | 0 <= i < |pages| ensures pages[i] == Join(Words(pages[i]), " ") {
        assert pages[i] == Join(gs[i], " ");
      }
    }
    assert WithinLimit(pages, maxChars) by {
      forall i | 0 <= i < |pages| ensures |pages[i]| < maxChars || |Words(pages[i])| <= 1 {
        assert Fits(gs[i], maxChars);
      }
    }
    assert EmptyOnlyFirst(pages, ws, maxChars);
    assert ClosedWhenFull(pages, maxChars);
  }

  /** The pages made of the word lists `gs`, seen through `Words`. */
  lemma PagesOfGroups(gs: seq<seq<string>>)
    requires forall j :: 0 <= j < |gs| ==> AllWords(gs[j])
    ensures var pages := JoinEach(gs);
      && WordsEach(pages) == gs
      && forall i :: 0 <= i < |gs| ==>
           && pages[i] == Join(gs[i], " ")
           && (gs[i] == [] <==> pages[i] == "")
           && Width(gs[i]) == if pages[i] == "" then 0 else |pages[i]| + 1
  {
    var pages := JoinEach(gs);
    forall i | 0 <= i < |gs|
      ensures Words(pages[i]) == gs[i]
      ensures gs[i] == [] <==> pages[i] == ""
      ensures Width(gs[i]) == if pages[i] == "" then 0 else |pages[i]| + 1
    {
      PageOfGroup(gs[i]);
    }
  }

  /** A page made of the words `g` has exactly those words, is empty only
      for no words, and its buffer is one blank longer. */
  lemma PageOfGroup(g: seq<string>)
    requires AllWords(g)
    ensures Words(Join(g, " ")) == g
    ensures g == [] <==> Join(g, " ") == ""
    ensures Width(g) == if Join(g, " ") == "" then 0 else |Join(g, " ")| + 1
  {
    WordsOfJoin(g);
    SpacedIsJoin(g);
    if g != [] {
      JoinEnds(g);
    }
  }

  /** The text gives no page at all exactly when no paragraph starts with the
      section sign and no paragraph holds a word. */
  lemma NoPages(text: string, maxChars: int)
    ensures SplitIntoPages(text, maxChars) == [] <==>
      forall k :: 0 <= k < |SplitOn(text, ParagraphBreak)| ==>
        !StartsWithSection(SplitOn(text, ParagraphBreak)[k]) && Words(SplitOn(text, ParagraphBreak)[k]) == []
  {
    var paras := SplitOn(text, ParagraphBreak);
    var parts := seq(|paras|, k requires 0 <= k < |paras| => PagesOf(paras[k], maxChars));
    SplitIntoPagesByParagraph(text, maxChars);
    FlattenEmpty(parts);
    forall k | 0 <= k < |paras|
      ensures parts[k] == [] <==> !StartsWithSection(paras[k]) && Words(paras[k]) == []
    {
      if !StartsWithSection(paras[k]) {
        WrapEmpty(Words(paras[k]), maxChars);
      }
    }
  }

  lemma WrapEmpty(ws: seq<string>, maxChars: int)
    requires AllWords(ws)
    ensures WrapParagraph(ws, maxChars) == [] <==> ws == []
  {
    GroupsShape(ws, maxChars);
  }

  /** An empty text gives no page. */
  lemma EmptyTextNoPages(maxChars: int)
    ensures SplitIntoPages("", maxChars) == []
  {
    NoPages("", maxChars);
    var paras := SplitOn("", ParagraphBreak);
    assert Find("", ParagraphBreak, 0).None?;
    assert paras == [""];
  }

  /** Every page of the text is either one of its section-sign paragraphs,
      kept verbatim, or a page of words joined by single blanks, which is a
      single line. */
  lemma PageKinds(text: string, maxChars: int)
    ensures forall page :: page in SplitIntoPages(text, maxChars) ==>
              (StartsWithSection(page) && page in SplitOn(text, ParagraphBreak))
              || (page == Join(Words(page), " ") && SingleLine(page))
  {
    var paras := SplitOn(text, ParagraphBreak);
    var parts := seq(|paras|, k requires 0 <= k < |paras| => PagesOf(paras[k], maxChars));
    SplitIntoPagesByParagraph(text, maxChars);
    forall page | page in SplitIntoPages(text, maxChars)
      ensures (StartsWithSection(page) && page in paras)
              || (page == Join(Words(page), " ") && SingleLine(page))
    {
      FlattenMember(parts, page);
      var k :| 0 <= k < |parts| && page in parts[k];
      if !StartsWithSection(paras[k]) {
        WrapParagraphPages(Words(paras[k]), maxChars);
        var i :| 0 <= i < |parts[k]| && parts[k][i] == page;
        JoinedWordsSingleLine(Words(page));
      }
    }
  }

  /** An example: "Hello world. This is a test." with a limit of
      ten characters.  "This is a" is ten characters with its blank, so the
      third page keeps three words. */
  lemma HelloWorldExample()
    ensures SplitIntoPages("Hello world. This is a test.", 10)
            == ["Hello", "world.", "This is a", "test."]
  {
    var text := "Hello world. This is a test.";
    var groups := [["Hello"], ["world."], ["This", "is", "a"], ["test."]];
    ExampleOneParagraph();
    PagesFromEmptyBuffer([text], 10);
    assert SplitIntoPages(text, 10) == PagesOfAll([text], 10);
    SingleParagraph(text, 10);
    ExampleWords(text);
    ExampleGroups();
    assert PagesOf(text, 10) == JoinEach(groups);
    ExampleJoin();
  }

  lemma ExampleJoin()
    ensures JoinEach([["Hello"], ["world."], ["This", "is", "a"], ["test."]])
            == ["Hello", "world.", "This is a", "test."]
  {
    var gs := [["Hello"], ["world."], ["This", "is", "a"], ["test."]];
    var js := JoinEach(gs);
    assert |js| == 4;
    assert js[0] == Join(["Hello"], " ") == "Hello";
    assert js[1] == Join(["world."], " ") == "world.";
    assert js[2] == Join(["This", "is", "a"], " ") == "This is a";
    assert js[3] == Join(["test."], " ") == "test.";
  }

  lemma SingleParagraph(p: string, maxChars: int)
    ensures PagesOfAll([p], maxChars) == PagesOf(p, maxChars)
  {
    var paras := [p];
    assert seq(|paras|, k requires 0 <= k < |paras| => PagesOf(paras[k], maxChars)) == [PagesOf(p, maxChars)];
    assert Flatten([PagesOf(p, maxChars)]) == PagesOf(p, maxChars) + Flatten([]);
  }

  lemma ExampleOneParagraph()
    ensures SplitOn("Hello world. This is a test.", ParagraphBreak) == ["Hello world. This is a test."]
  {
    var text := "Hello world. This is a test.";
    assert forall k :: 0 <= k < |text| ==> text[k] != '\n';
    forall j
      ensures !OccursAt(text, j, ParagraphBreak)
    {
      if 0 <= j && j + 2 <= |text| {
        assert text[j..j + 2][0] == text[j];
      }
    }
    FindAbsent(text, ParagraphBreak);
  }

  /** The words of the example. Here and in the two helpers below the
      example's text and words are parameters fixed by `requires`: on
      literal arguments the solver unfolds the word splitting character by
      character, which costs more than the whole proof. */
  lemma ExampleWords(text: string)
    requires text == "Hello world. This is a test."
    ensures Words(text) == ["Hello", "world.", "This", "is", "a", "test."]
  {
    var ws := ["Hello", "world.", "This", "is", "a", "test."];
    ExampleAllWords(ws);
    WordsOfSix(ws[0], ws[1], ws[2], ws[3], ws[4], ws[5]);
    ExampleText(text, ws[0], ws[1], ws[2], ws[3], ws[4], ws[5]);
  }

  lemma ExampleText(text: string, a: string, b: string, c: string, d: string, e: string, f: string)
    requires text == "Hello world. This is a test."
    requires a == "Hello" && b == "world." && c == "This" && d == "is" && e == "a" && f == "test."
    ensures text == a + (" " + (b + (" " + (c + (" " + (d + (" " + (e + (" " + f)))))))))
  {
  }

  lemma WordsOfSix(a: string, b: string, c: string, d: string, e: string, f: string)
    requires AllWords([a, b, c, d, e, f])
    ensures Words(a + (" " + (b + (" " + (c + (" " + (d + (" " + (e + (" " + f)))))))))) == [a, b, c, d, e, f]
  {
    JoinSix(a, b, c, d, e, f);
    WordsOfJoin([a, b, c, d, e, f]);
  }

  lemma ExampleAllWords(ws: seq<string>)
    requires ws == ["Hello", "world.", "This", "is", "a", "test."]
    ensures AllWords(ws)
  {
    assert IsWord(ws[0]);
    assert IsWord(ws[1]);
    assert IsWord(ws[2]);
    assert IsWord(ws[3]);
    assert IsWord(ws[4]);
    assert IsWord(ws[5]);
  }

  lemma JoinSix(a: string, b: string, c: string, d: string, e: string, f: string)
    ensures Join([a, b, c, d, e, f], " ") == a + (" " + (b + (" " + (c + (" " + (d + (" " + (e + (" " + f)))))))))
  {
    var ls := [a, b, c, d, e, f];
    assert ls[1..] == [b, c, d, e, f];
    assert ls[2..] == [c, d, e, f];
    assert ls[3..] == [d, e, f];
    assert ls[4..] == [e, f];
    assert ls[5..] == [f];
    assert Join(ls[4..], " ") == e + (" " + f);
    assert Join(ls[3..], " ") == d + (" " + (e + (" " + f)));
    assert Join(ls[2..], " ") == c + (" " + (d + (" " + (e + (" " + f)))));
    assert Join(ls[1..], " ") == b + (" " + (c + (" " + (d + (" " + (e + (" " + f)))))));
  }

  lemma ExampleGroups()
    ensures Groups(["Hello", "world.", "This", "is", "a", "test."], 10)
            == [["Hello"], ["world."], ["This", "is", "a"], ["test."]]
  {
    assert Width(["Hello"]) == 6;
    assert Width(["world."]) == 7;
    assert Width(["This"]) == 5;
    assert Width(["This", "is"]) == 8;
    assert Width(["This", "is", "a"]) == 10;
    var g6 := Greedy([], 10, ["test."]);
    assert g6 == ([], ["test."]);
    var g5 := Greedy(["test."], 10, ["This", "is", "a"]);
    assert ["test."][1..] == [];
    assert Greedy(["test."][1..], 10, ["test."]) == g6;
    assert Width(["This", "is", "a"]) + |"test."| + 1 > 10;
    assert g5 == ([["This", "is", "a"]] + g6.0, g6.1);
    var first: seq<seq<string>> := [["This", "is", "a"]];
    assert first + g6.0 == first;
    assert g5 == ([["This", "is", "a"]], ["test."]);
    var g4 := Greedy(["a", "test."], 10, ["This", "is"]);
    assert ["a", "test."][1..] == ["test."];
    assert ["This", "is"] + ["a"] == ["This", "is", "a"];
    assert g4 == g5;
    var g3 := Greedy(["is", "a", "test."], 10, ["This"]);
    assert ["is", "a", "test."][1..] == ["a", "test."];
    assert ["This"] + ["is"] == ["This", "is"];
    assert g3 == g4;
    var g2 := Greedy(["This", "is", "a", "test."], 10, ["world."]);
    assert ["This", "is", "a", "test."][1..] == ["is", "a", "test."];
    assert g2 == ([["world."]] + g3.0, g3.1);
    var g1 := Greedy(["world.", "This", "is", "a", "test."], 10, ["Hello"]);
    assert ["world.", "This", "is", "a", "test."][1..] == ["This", "is", "a", "test."];
    assert g1 == ([["Hello"]] + g2.0, g2.1);
    var ws := ["Hello", "world.", "This", "is", "a", "test."];
    assert ws[1..] == ["world.", "This", "is", "a", "test."];
    assert [] + ["Hello"] == ["Hello"];
    assert Greedy(ws, 10, []) == g1;
  }
}
