/** String operations with the exact meaning of the Python built-ins the
    book pipeline relies on: `str.isspace`, `str.split()`, `str.split(sep)`,
    `str.strip()`, `sep.join(...)` and `str(n)` for a natural number. */
module Text {

  datatype Option<T> = None | Some(value: T)

  // ---------------------------------------------------------------------
  // Whitespace, words and `str.split()`
  // ---------------------------------------------------------------------

  /** The characters for which Python's `str.isspace()` holds: ASCII tab to
      carriage return, the four information separators, space, NEL, no-break
      space and the Unicode space separators, line and paragraph separators. */
  predicate IsSpace(c: char) {
    c == ' ' || ('\t' <= c <= '\r') || ('\U{1C}' <= c <= '\U{1F}')
    || c == '\U{85}' || c == '\U{A0}' || c == '\U{1680}'
    || ('\U{2000}' <= c <= '\U{200A}') || c == '\U{2028}' || c == '\U{2029}'
    || c == '\U{202F}' || c == '\U{205F}' || c == '\U{3000}'
  }

  /** A word as produced by `str.split()`: non-empty, no whitespace inside. */
  predicate IsWord(w: string) {
    |w| > 0 && forall i :: 0 <= i < |w| ==> !IsSpace(w[i])
  }

  predicate AllWords(ws: seq<string>) {
    forall i :: 0 <= i < |ws| ==> IsWord(ws[i])
  }

  /** Length of the longest whitespace-free prefix of `s`. */
  function WordLen(s: string): (n: nat)
    ensures n <= |s|
    ensures forall i :: 0 <= i < n ==> !IsSpace(s[i])
    ensures n < |s| ==> IsSpace(s[n])
  {
    if s == [] || IsSpace(s[0]) then 0 else 1 + WordLen(s[1..])
  }

  /** `s.split()`: the maximal runs of non-whitespace characters, in order;
      leading, trailing and repeated whitespace produce no empty words. */
  function Words(s: string): (r: seq<string>)
    ensures AllWords(r)
    decreases |s|
  {
    if s == [] then []
    else if IsSpace(s[0]) then Words(s[1..])
    else
      var n := WordLen(s);
      [s[..n]] + Words(s[n..])
  }

  /** `sep.join(ws)`. */
  function Join(ws: seq<string>, sep: string): (r: string) {
    if |ws| == 0 then ""
    else if |ws| == 1 then ws[0]
    else ws[0] + sep + Join(ws[1..], sep)
  }

  /** Words joined by blanks make a single line. */
  lemma {:induction false} JoinedWordsSingleLine(ws: seq<string>)
    requires AllWords(ws)
    ensures SingleLine(Join(ws, " "))
    decreases |ws|
  {
    if |ws| == 1 {
      assert IsWord(ws[0]);
    } else if |ws| > 1 {
      JoinedWordsSingleLine(ws[1..]);
      assert IsWord(ws[0]);
      SingleLineConcat(ws[0], " ");
      SingleLineConcat(ws[0] + " ", Join(ws[1..], " "));
    }
  }

  /** A word followed by a blank or by nothing is measured exactly. */
  lemma {:induction false} WordLenOfWord(w: string, t: string)
    requires IsWord(w)
    requires t == [] || IsSpace(t[0])
    ensures WordLen(w + t) == |w|
    decreases |w|
  {
    if |w| > 1 {
      assert (w + t)[1..] == w[1..] + t;
      WordLenOfWord(w[1..], t);
    } else {
      assert (w + t)[1..] == t;
    }
  }

  /** `" ".join` and `split()` are inverse on word lists: joining words with
      single blanks and splitting again gives the same words back. */
  lemma {:induction false} WordsOfJoin(ws: seq<string>)
    requires AllWords(ws)
    ensures Words(Join(ws, " ")) == ws
    decreases |ws|
  {
    if |ws| == 1 {
      var w := ws[0];
      WordLenOfWord(w, "");
      assert w + "" == w;
      assert w[..|w|] == w && w[|w|..] == [];
    } else if |ws| > 1 {
      var w, rest := ws[0], Join(ws[1..], " ");
      var s := w + " " + rest;
      assert s == w + (" " + rest);
      WordLenOfWord(w, " " + rest);
      assert s[..|w|] == w;
      assert s[|w|..] == " " + rest;
      assert (" " + rest)[1..] == rest;
      WordsOfJoin(ws[1..]);
      assert ws == [w] + ws[1..];
    }
  }

  // ---------------------------------------------------------------------
  // `str.strip()`
  // ---------------------------------------------------------------------

  /** `s.rstrip()`: the longest prefix of `s` that does not end in whitespace
      and after which only whitespace follows. */
  function TrimRight(s: string): (r: string)
    ensures |r| <= |s| && r == s[..|r|]
    ensures |r| == 0 || !IsSpace(r[|r| - 1])
    ensures forall i :: |r| <= i < |s| ==> IsSpace(s[i])
  {
    if |s| > 0 && IsSpace(s[|s| - 1]) then TrimRight(s[..|s| - 1]) else s
  }

  /** `s.lstrip()`: the longest suffix of `s` that does not start with
      whitespace and before which only whitespace comes. */
  function TrimLeft(s: string): (r: string)
    ensures |r| <= |s| && r == s[|s| - |r|..]
    ensures |r| == 0 || !IsSpace(r[0])
    ensures forall i :: 0 <= i < |s| - |r| ==> IsSpace(s[i])
  {
    if |s| > 0 && IsSpace(s[0]) then TrimLeft(s[1..]) else s
  }

  /** `s.strip()`. */
  function Strip(s: string): (r: string) {
    TrimLeft(TrimRight(s))
  }

  /** Stripping a text that starts and ends with a non-blank and is followed
      by one blank removes exactly that blank. */
  lemma StripTrailingBlank(x: string)
    requires |x| > 0 && !IsSpace(x[0]) && !IsSpace(x[|x| - 1])
    ensures Strip(x + " ") == x
  {
    var s := x + " ";
    assert IsSpace(s[|x|]) && !IsSpace(s[|x| - 1]);
    assert TrimRight(s) == x;
  }

  // ---------------------------------------------------------------------
  // Occurrences of a separator and `str.split(sep)`
  // ---------------------------------------------------------------------

  /** `sep` occurs in `s` starting at index `i`. */
  predicate OccursAt(s: string, i: int, sep: string) {
    0 <= i && i + |sep| <= |s| && s[i..i + |sep|] == sep
  }

  /** No occurrence of `sep` in `s` starts before index `n`. */
  predicate NoOccurrenceBefore(s: string, n: int, sep: string) {
    forall i :: 0 <= i < n ==> !OccursAt(s, i, sep)
  }

  /** `s` contains `sub` somewhere. */
  predicate Contains(s: string, sub: string) {
    exists i :: 0 <= i <= |s| && OccursAt(s, i, sub)
  }

  /** `s.find(sep, from)`: the leftmost occurrence at or after `from`. */
  function Find(s: string, sep: string, from: nat): (r: Option<nat>)
    ensures r.Some? ==> from <= r.value && OccursAt(s, r.value, sep)
                        && forall j :: from <= j < r.value ==> !OccursAt(s, j, sep)
    ensures r.None? ==> forall j :: from <= j ==> !OccursAt(s, j, sep)
    decreases |s| - from
  {
    if from + |sep| > |s| then None
    else if OccursAt(s, from, sep) then Some(from)
    else Find(s, sep, from + 1)
  }

  /** An occurrence inside a prefix is an occurrence in the whole text. */
  lemma OccursInPrefix(s: string, m: int, j: int, sep: string)
    requires 0 <= m <= |s|
    requires OccursAt(s[..m], j, sep)
    ensures OccursAt(s, j, sep)
  {
    assert s[..m][j..j + |sep|] == s[j..j + |sep|];
  }

  /** `s.split(sep)` for a non-empty separator: cut at the leftmost
      occurrence, then continue after it; empty pieces are kept.  Joining
      the pieces with `sep` gives `s` back, and every cut is the leftmost
      one possible, which determines the pieces uniquely. */
  function SplitOn(s: string, sep: string): (r: seq<string>)
    requires |sep| > 0
    ensures |r| >= 1
    ensures Join(r, sep) == s
    ensures forall k :: 0 <= k < |r| - 1 ==> NoOccurrenceBefore(r[k] + sep, |r[k]|, sep)
    ensures NoOccurrenceBefore(r[|r| - 1], |r[|r| - 1]|, sep)
    decreases |s|
  {
    match Find(s, sep, 0)
    case None => [s]
    case Some(i) =>
      var head, rest := s[..i], SplitOn(s[i + |sep|..], sep);
      assert s == head + sep + s[i + |sep|..] by {
        assert s[i..i + |sep|] == sep;
        assert s == s[..i] + s[i..i + |sep|] + s[i + |sep|..];
      }
      assert NoOccurrenceBefore(head + sep, |head|, sep) by {
        assert head + sep == s[..i + |sep|];
        forall j | 0 <= j < |head|
          ensures !OccursAt(head + sep, j, sep)
        {
          if OccursAt(head + sep, j, sep) {
            OccursInPrefix(s, i + |sep|, j, sep);
          }
        }
      }
      [head] + rest
  }

  /** `s.split('\n')`: the lines of `s`. */
  function Lines(s: string): (r: seq<string>)
    ensures |r| >= 1 && Join(r, "\n") == s
  {
    SplitOn(s, "\n")
  }

  /** Without any occurrence, `Find` reports none. */
  lemma FindAbsent(s: string, sep: string)
    requires forall j :: !OccursAt(s, j, sep)
    ensures Find(s, sep, 0).None?
  {
  }

  /** An occurrence with none before it is what `Find` returns. */
  lemma FindLeftmost(s: string, sep: string, i: nat)
    requires OccursAt(s, i, sep) && NoOccurrenceBefore(s, i, sep)
    ensures Find(s, sep, 0) == Some(i)
  {
    var r := Find(s, sep, 0);
    assert r.Some?;
  }

  /** The first newline of `x + "\n" + y` is inside `x` when `x` has one. */
  lemma FindNewlineInFront(x: string, y: string, i: nat)
    requires Find(x, "\n", 0) == Some(i)
    ensures Find(x + "\n" + y, "\n", 0) == Some(i)
  {
    var s := x + "\n" + y;
    assert s[i..i + 1] == x[i..i + 1];
    forall j | 0 <= j < i
      ensures !OccursAt(s, j, "\n")
    {
      assert !OccursAt(x, j, "\n");
      assert s[j..j + 1] == x[j..j + 1];
    }
    FindLeftmost(s, "\n", i);
  }

  /** Without a newline in `x`, the first newline of `x + "\n" + y` ends `x`. */
  lemma FindNewlineAfter(x: string, y: string)
    requires Find(x, "\n", 0).None?
    ensures Find(x + "\n" + y, "\n", 0) == Some(|x|)
  {
    var s := x + "\n" + y;
    assert s[|x|..|x| + 1] == "\n";
    forall j | 0 <= j < |x|
      ensures !OccursAt(s, j, "\n")
    {
      assert !OccursAt(x, j, "\n");
      assert s[j..j + 1] == x[j..j + 1];
    }
    FindLeftmost(s, "\n", |x|);
  }

  /** Splitting on a newline distributes over a newline-joined pair. */
  lemma {:induction false} LinesOfConcat(x: string, y: string)
    ensures Lines(x + "\n" + y) == Lines(x) + Lines(y)
    decreases |x|
  {
    var s := x + "\n" + y;
    match Find(x, "\n", 0)
    case None =>
      FindNewlineAfter(x, y);
      assert s[..|x|] == x;
      assert s[|x| + 1..] == y;
    case Some(i) =>
      FindNewlineInFront(x, y, i);
      assert s[..i] == x[..i];
      assert s[i + 1..] == x[i + 1..] + "\n" + y;
      LinesOfConcat(x[i + 1..], y);
  }

  /** `s` has no line break. */
  predicate SingleLine(s: string) {
    forall k :: 0 <= k < |s| ==> s[k] != '\n'
  }

  lemma SingleLineConcat(a: string, b: string)
    requires SingleLine(a) && SingleLine(b)
    ensures SingleLine(a + b)
  {
    forall k | 0 <= k < |a + b|
      ensures (a + b)[k] != '\n'
    {
      if k >= |a| {
        assert (a + b)[k] == b[k - |a|];
      }
    }
  }

  /** A text without a line break is one line. */
  lemma LinesOfSingleLine(s: string)
    requires SingleLine(s)
    ensures Lines(s) == [s]
  {
    forall j
      ensures !OccursAt(s, j, "\n")
    {
      if 0 <= j && j + 1 <= |s| {
        assert s[j..j + 1][0] == s[j];
      }
    }
    FindAbsent(s, "\n");
  }

  /** A single line followed by a line break and more text is the first line. */
  lemma LinesCons(a: string, rest: string)
    requires SingleLine(a)
    ensures Lines(a + "\n" + rest) == [a] + Lines(rest)
  {
    LinesOfConcat(a, rest);
    LinesOfSingleLine(a);
  }

  /** A single line put in front of a text joins the text's first line. */
  lemma {:induction false} LinesOfPrefixed(p: string, e: string)
    requires SingleLine(p)
    ensures Lines(p + e) == [p + Lines(e)[0]] + Lines(e)[1..]
    decreases |e|
  {
    if SingleLine(e) {
      SingleLineConcat(p, e);
      LinesOfSingleLine(p + e);
      LinesOfSingleLine(e);
    } else {
      var i :| 0 <= i < |e| && e[i] == '\n';
      var a, b := e[..i], e[i + 1..];
      assert e == a + "\n" + b;
      assert p + e == (p + a) + "\n" + b;
      LinesOfConcat(a, b);
      LinesOfConcat(p + a, b);
      LinesOfPrefixed(p, a);
      HeadOfAppend(p + Lines(a)[0], Lines(a), Lines(b));
    }
  }

  /** Replacing the head of `la` and appending `lb`, or appending first. */
  lemma HeadOfAppend<X>(x: X, la: seq<X>, lb: seq<X>)
    requires |la| >= 1
    ensures (la + lb)[0] == la[0]
    ensures [x] + la[1..] + lb == [x] + (la + lb)[1..]
  {
  }

  /** Replacing the last element of `lb`, or of `la + lb`. */
  lemma LastOfAppend<X>(la: seq<X>, lb: seq<X>, y: X)
    requires |lb| >= 1
    ensures (la + lb)[|la + lb| - 1] == lb[|lb| - 1]
    ensures la + (lb[..|lb| - 1] + [y]) == (la + lb)[..|la + lb| - 1] + [y]
  {
  }

  /** A single line put after a text extends the text's last line. */
  lemma {:induction false} LinesOfSuffixed(e: string, s: string)
    requires SingleLine(s)
    ensures var l := Lines(e);
      Lines(e + s) == l[..|l| - 1] + [l[|l| - 1] + s]
    decreases |e|
  {
    if SingleLine(e) {
      SingleLineConcat(e, s);
      LinesOfSingleLine(e + s);
      LinesOfSingleLine(e);
    } else {
      var i :| 0 <= i < |e| && e[i] == '\n';
      var a, b := e[..i], e[i + 1..];
      assert e == a + "\n" + b;
      assert e + s == a + "\n" + (b + s);
      LinesOfConcat(a, b);
      LinesOfConcat(a, b + s);
      LinesOfSuffixed(b, s);
      LastOfAppend(Lines(a), Lines(b), Lines(b)[|Lines(b)| - 1] + s);
    }
  }

  /** Splitting single lines joined by line breaks gives the lines back. */
  lemma {:induction false} LinesOfJoin(ls: seq<string>)
    requires |ls| >= 1 && forall i :: 0 <= i < |ls| ==> SingleLine(ls[i])
    ensures Lines(Join(ls, "\n")) == ls
    decreases |ls|
  {
    if |ls| == 1 {
      LinesOfSingleLine(ls[0]);
    } else {
      assert forall i :: 0 <= i < |ls[1..]| ==> SingleLine(ls[1..][i]);
      LinesOfJoin(ls[1..]);
      LinesCons(ls[0], Join(ls[1..], "\n"));
      Uncons(ls);
    }
  }

  /** A non-empty sequence is its head followed by its tail. */
  lemma Uncons<X>(s: seq<X>)
    requires s != []
    ensures [s[0]] + s[1..] == s
  {
  }

  /** A join splits at any separator between two pieces. */
  lemma {:induction false} JoinSplit(ls: seq<string>, sep: string, k: nat)
    requires 0 < k < |ls|
    ensures Join(ls, sep) == Join(ls[..k], sep) + sep + Join(ls[k..], sep)
    decreases k
  {
    if k > 1 {
      JoinSplit(ls[1..], sep, k - 1);
      assert ls[1..][..k - 1] == ls[..k][1..];
      assert ls[1..][k - 1..] == ls[k..];
    } else {
      assert ls[k..] == ls[1..];
    }
  }

  /** The leading single lines of a joined text are its first lines. */
  lemma LinesOfJoinPrefix(ls: seq<string>, k: nat)
    requires 0 < k < |ls| && forall i :: 0 <= i < k ==> SingleLine(ls[i])
    ensures |Lines(Join(ls, "\n"))| >= k
    ensures forall i :: 0 <= i < k ==> Lines(Join(ls, "\n"))[i] == ls[i]
  {
    JoinSplit(ls, "\n", k);
    assert forall i :: 0 <= i < |ls[..k]| ==> SingleLine(ls[..k][i]);
    LinesOfJoin(ls[..k]);
    LinesOfConcat(Join(ls[..k], "\n"), Join(ls[k..], "\n"));
  }

  /** An occurrence in the second part of a concatenation. */
  lemma OccursAfter(a: string, b: string, i: int, x: string)
    requires OccursAt(b, i, x)
    ensures OccursAt(a + b, |a| + i, x)
  {
    assert (a + b)[|a| + i..|a| + i + |x|] == b[i..i + |x|];
  }

  /** An occurrence in the first part of a concatenation. */
  lemma OccursBefore(a: string, b: string, i: int, x: string)
    requires OccursAt(a, i, x)
    ensures OccursAt(a + b, i, x)
  {
    assert (a + b)[i..i + |x|] == a[i..i + |x|];
  }

  /** An occurrence inside an occurrence. */
  lemma OccursWithin(a: string, i: int, b: string, j: int, c: string)
    requires OccursAt(a, i, b) && OccursAt(b, j, c)
    ensures OccursAt(a, i + j, c)
  {
    forall k | 0 <= k < |c|
      ensures a[i + j + k] == c[k]
    {
      assert a[i + j + k] == a[i..i + |b|][j + k] == b[j..j + |c|][k];
    }
    assert a[i + j..i + j + |c|] == c;
  }

  /** Every piece of a join occurs in it. */
  lemma {:induction false} PieceOccursInJoin(ls: seq<string>, sep: string, k: nat)
    requires k < |ls|
    ensures Contains(Join(ls, sep), ls[k])
    decreases k
  {
    var j := Join(ls, sep);
    if k == 0 {
      if |ls| > 1 {
        assert OccursAt(ls[0], 0, ls[0]);
        OccursBefore(ls[0], sep + Join(ls[1..], sep), 0, ls[0]);
        assert j == ls[0] + (sep + Join(ls[1..], sep));
      }
      assert OccursAt(j, 0, ls[0]);
    } else {
      PieceOccursInJoin(ls[1..], sep, k - 1);
      var i :| 0 <= i <= |Join(ls[1..], sep)| && OccursAt(Join(ls[1..], sep), i, ls[k]);
      OccursAfter(ls[0] + sep, Join(ls[1..], sep), i, ls[k]);
    }
  }

  // ---------------------------------------------------------------------
  // Flattening
  // ---------------------------------------------------------------------

  function Flatten<T>(ss: seq<seq<T>>): seq<T> {
    if ss == [] then [] else ss[0] + Flatten(ss[1..])
  }

  lemma FlattenCons<T>(x: seq<T>, ss: seq<seq<T>>)
    ensures Flatten([x] + ss) == x + Flatten(ss)
  {
    assert ([x] + ss)[1..] == ss;
  }

  lemma {:induction false} FlattenAppend<T>(a: seq<seq<T>>, b: seq<seq<T>>)
    ensures Flatten(a + b) == Flatten(a) + Flatten(b)
    decreases |a|
  {
    if a != [] {
      assert (a + b)[1..] == a[1..] + b;
      FlattenAppend(a[1..], b);
    } else {
      assert a + b == b;
    }
  }

  /** The flattened sequence is empty exactly when every part is. */
  lemma {:induction false} FlattenEmpty<T>(ss: seq<seq<T>>)
    ensures Flatten(ss) == [] <==> forall k :: 0 <= k < |ss| ==> ss[k] == []
    decreases |ss|
  {
    if ss != [] {
      FlattenEmpty(ss[1..]);
      assert forall k :: 1 <= k < |ss| ==> ss[k] == ss[1..][k - 1];
    }
  }

  /** An element of the flattened sequence comes from one of the parts, and
      every element of a part is in the flattened sequence. */
  lemma {:induction false} FlattenMember<T>(ss: seq<seq<T>>, x: T)
    ensures x in Flatten(ss) <==> exists k :: 0 <= k < |ss| && x in ss[k]
    decreases |ss|
  {
    if ss != [] {
      FlattenMember(ss[1..], x);
      if x in Flatten(ss[1..]) {
        var k :| 0 <= k < |ss[1..]| && x in ss[1..][k];
        assert x in ss[k + 1];
      }
      if exists k :: 0 <= k < |ss| && x in ss[k] {
        var k :| 0 <= k < |ss| && x in ss[k];
        if k > 0 {
          assert x in ss[1..][k - 1];
        }
      }
    }
  }

  // ---------------------------------------------------------------------
  // Decimal rendering of natural numbers, `str(n)` / f"{n}"
  // ---------------------------------------------------------------------

  predicate IsDigit(c: char) {
    '0' <= c <= '9'
  }

  function DigitChar(d: nat): (c: char)
    requires d < 10
    ensures IsDigit(c)
  {
    "0123456789"[d]
  }

  function DigitValue(c: char): nat
    requires IsDigit(c)
  {
    (c as int - '0' as int) as nat
  }

  /** The decimal text of `n`: digits only, never empty, and with no
      leading zero unless it is the single digit of zero. */
  function NatToString(n: nat): (r: string)
    ensures |r| >= 1
    ensures forall i :: 0 <= i < |r| ==> IsDigit(r[i])
    ensures r[0] == '0' ==> n == 0
  {
    if n < 10 then [DigitChar(n)] else NatToString(n / 10) + [DigitChar(n % 10)]
  }

  /** The value of a string of decimal digits (Python's `int(s)` on digits). */
  function ParseNat(s: string): nat
    requires forall i :: 0 <= i < |s| ==> IsDigit(s[i])
  {
    if s == [] then 0 else ParseNat(s[..|s| - 1]) * 10 + DigitValue(s[|s| - 1])
  }

  /** Reading back a rendered number gives the number. */
  lemma {:induction false} ParseNatToString(n: nat)
    ensures ParseNat(NatToString(n)) == n
  {
    var s := NatToString(n);
    if n >= 10 {
      assert s[..|s| - 1] == NatToString(n / 10);
      ParseNatToString(n / 10);
    }
  }

  lemma NatToStringSingleLine(n: nat)
    ensures SingleLine(NatToString(n))
  {
  }

  /** Distinct numbers render to distinct texts. */
  lemma NatToStringInjective(a: nat, b: nat)
    requires NatToString(a) == NatToString(b)
    ensures a == b
  {
    ParseNatToString(a);
    ParseNatToString(b);
  }
}
