/** The text normaliser of stendhals_quill.py: `filter_sensitive_words`
    replaces every case-insensitive occurrence of each configured sensitive
    word by the marker "[redacted]" (`re.sub` with an escaped literal pattern
    and IGNORECASE: leftmost first, occurrences do not overlap, the text
    between them is kept as it was), and `process_text` runs link removal
    first and the filter second. */
module Redaction {
  import opened Text

  /** The configured word list. */
  const SensitiveWords: seq<string> := ["bad word"]
  const Marker: string := "[redacted]"

  /** Case folding of the letters A to Z; every other character is kept. */
  function LowerAscii(c: char): char {
    if 'A' <= c <= 'Z' then (c as int + 32) as char else c
  }

  /** `x` and `y` are equal up to the case of ASCII letters. */
  predicate CaselessEq(x: string, y: string) {
    |x| == |y| && forall k :: 0 <= k < |x| ==> LowerAscii(x[k]) == LowerAscii(y[k])
  }

  /** `pat` occurs in `s` at index `i`, ignoring the case of ASCII letters. */
  predicate MatchesAt(s: string, i: int, pat: string) {
    0 <= i && i + |pat| <= |s| && CaselessEq(s[i..i + |pat|], pat)
  }

  /** No occurrence of `pat` in `s` starts before index `n`. */
  predicate NoMatchBefore(s: string, n: int, pat: string) {
    forall i :: 0 <= i < n ==> !MatchesAt(s, i, pat)
  }

  /** `re.sub(pattern, rep, s)` for a literal, case-insensitive, non-empty
      pattern: scanning from the left, an occurrence is replaced and scanning
      resumes after it; any other character is copied. */
  function ReplaceAll(s: string, pat: string, rep: string): (r: string)
    requires |pat| > 0
    decreases |s|
  {
    if s == [] then []
    else if MatchesAt(s, 0, pat) then rep + ReplaceAll(s[|pat|..], pat, rep)
    else [s[0]] + ReplaceAll(s[1..], pat, rep)
  }

  /** A match further along a concatenation is a match in its second part. */
  lemma MatchShift(a: string, b: string, p: int, pat: string)
    requires p >= |a|
    ensures MatchesAt(a + b, p, pat) <==> MatchesAt(b, p - |a|, pat)
  {
    if p + |pat| <= |a + b| {
      assert (a + b)[p..p + |pat|] == b[p - |a|..p - |a| + |pat|];
    }
  }

  /** Dropping the first character moves every match one place left. */
  lemma MatchTail(s: string, i: int, pat: string)
    requires |s| > 0 && 0 <= i
    ensures MatchesAt(s[1..], i, pat) <==> MatchesAt(s, i + 1, pat)
  {
    if i + 1 + |pat| <= |s| {
      assert s[1..][i..i + |pat|] == s[i + 1..i + 1 + |pat|];
    }
  }

  /** A character that does not start an occurrence is copied. */
  lemma CopiedFirst(s: string, pat: string, rep: string)
    requires |pat| > 0 && |s| > 0 && !MatchesAt(s, 0, pat)
    ensures ReplaceAll(s, pat, rep) == [s[0]] + ReplaceAll(s[1..], pat, rep)
  {
  }

  lemma NoMatchInTail(s: string, m: nat, pat: string)
    requires 0 < m <= |s| && NoMatchBefore(s, m, pat)
    ensures NoMatchBefore(s[1..], m - 1, pat)
  {
    forall i | 0 <= i < m - 1
      ensures !MatchesAt(s[1..], i, pat)
    {
      MatchTail(s, i, pat);
    }
  }

  /** Text before the first occurrence is copied unchanged. */
  lemma {:induction false} CopiedPrefix(s: string, m: nat, pat: string, rep: string)
    requires |pat| > 0 && m <= |s| && NoMatchBefore(s, m, pat)
    ensures ReplaceAll(s, pat, rep) == s[..m] + ReplaceAll(s[m..], pat, rep)
    decreases m
  {
    if m > 0 {
      CopiedFirst(s, pat, rep);
      NoMatchInTail(s, m, pat);
      CopiedPrefix(s[1..], m - 1, pat, rep);
      var tail := ReplaceAll(s[m..], pat, rep);
      calc {
        ReplaceAll(s, pat, rep);
        [s[0]] + ReplaceAll(s[1..], pat, rep);
        { assert s[1..][m - 1..] == s[m..]; }
        [s[0]] + (s[1..][..m - 1] + tail);
        { assert s[..m] == [s[0]] + s[1..][..m - 1]; }
        s[..m] + tail;
      }
    } else {
      assert s[..0] + ReplaceAll(s[0..], pat, rep) == ReplaceAll(s, pat, rep);
    }
  }

  /** The leftmost occurrence is replaced, the text before it is copied and
      the scan resumes right after it.  With `Unchanged` (no occurrence, no
      change) this determines the result completely. */
  lemma ReplaceLeftmost(s: string, j: nat, pat: string, rep: string)
    requires |pat| > 0 && MatchesAt(s, j, pat) && NoMatchBefore(s, j, pat)
    ensures ReplaceAll(s, pat, rep) == s[..j] + rep + ReplaceAll(s[j + |pat|..], pat, rep)
  {
    CopiedPrefix(s, j, pat, rep);
    var t := s[j..];
    assert t[..|pat|] == s[j..j + |pat|];
    assert t[|pat|..] == s[j + |pat|..];
  }

  /** A text without an occurrence is returned as it is. */
  lemma Unchanged(s: string, pat: string, rep: string)
    requires |pat| > 0 && NoMatchBefore(s, |s|, pat)
    ensures ReplaceAll(s, pat, rep) == s
  {
    CopiedPrefix(s, |s|, pat, rep);
    assert s[|s|..] == [];
  }

  /** A replacement longer than the pattern makes the text longer as soon
      as there is one occurrence, and never shorter. */
  lemma {:induction false} ReplaceGrows(s: string, pat: string, rep: string)
    requires |pat| > 0 && |rep| > |pat|
    ensures |ReplaceAll(s, pat, rep)| >= |s|
    ensures !NoMatchBefore(s, |s|, pat) ==> |ReplaceAll(s, pat, rep)| > |s|
    decreases |s|
  {
    if s == [] {
    } else if MatchesAt(s, 0, pat) {
      ReplaceGrows(s[|pat|..], pat, rep);
    } else {
      ReplaceGrows(s[1..], pat, rep);
      if !NoMatchBefore(s, |s|, pat) {
        var i :| 0 <= i < |s| && MatchesAt(s, i, pat);
        MatchTail(s, i - 1, pat);
      }
    }
  }

  /** The leftmost case-insensitive occurrence at or after `from`. */
  function FirstMatch(s: string, pat: string, from: nat): (r: Option<nat>)
    ensures r.Some? ==> from <= r.value && MatchesAt(s, r.value, pat)
                        && forall j :: from <= j < r.value ==> !MatchesAt(s, j, pat)
    ensures r.None? ==> forall j :: from <= j ==> !MatchesAt(s, j, pat)
    decreases |s| - from
  {
    if from + |pat| > |s| then None
    else if MatchesAt(s, from, pat) then Some(from)
    else FirstMatch(s, pat, from + 1)
  }

  // ---------------------------------------------------------------------
  // The configured filter
  // ---------------------------------------------------------------------

  /** Applies the replacement for each word of the list in turn. */
  function FilterWith(text: string, words: seq<string>): string
    requires forall i :: 0 <= i < |words| ==> |words[i]| > 0
    decreases |words|
  {
    if words == [] then text
    else FilterWith(ReplaceAll(text, words[0], Marker), words[1..])
  }

  /** `filter_sensitive_words(text)`. */
  function FilterSensitiveWords(text: string): string {
    FilterWith(text, SensitiveWords)
  }

  /** `process_text(text)`: link removal, then the sensitive-word filter.
      The link remover is a parameter. */
  function ProcessText(text: string, removeLinks: string -> string): string {
    FilterSensitiveWords(removeLinks(text))
  }

  /** With the single configured word the filter is one replacement. */
  lemma FilterIsOneReplacement(text: string)
    ensures FilterSensitiveWords(text) == ReplaceAll(text, "bad word", Marker)
  {
    assert SensitiveWords[1..] == [];
  }

  /** No character of the marker's closing bracket, opening bracket or of
      its first letter can stand at a position of the sensitive word. */
  lemma MarkerBreaksWord()
    ensures forall k :: 0 <= k < 8 ==> LowerAscii("bad word"[k]) != ']' && LowerAscii("bad word"[k]) != '['
    ensures LowerAscii("bad word"[0]) != LowerAscii('r')
  {
  }

  /** The marker cannot be part of an occurrence of the sensitive word:
      none starts inside `Marker + t`'s first ten characters. */
  lemma NoMatchAcrossMarker(t: string, p: int)
    requires 0 <= p < 10
    ensures !MatchesAt(Marker + t, p, "bad word")
  {
    var out := Marker + t;
    MarkerBreaksWord();
    if p + 8 <= |out| {
      if p == 0 {
        assert out[0] == '[';
      } else if p == 1 {
        assert out[1] == 'r';
      } else {
        assert out[9] == ']';
        assert out[p + (9 - p)] == ']';
      }
    }
  }

  /** When the text does not start with the sensitive word, neither does
      the filtered text. */
  lemma NoMatchAtFront(s: string)
    requires s != [] && !MatchesAt(s, 0, "bad word")
    ensures !MatchesAt(ReplaceAll(s, "bad word", Marker), 0, "bad word")
  {
    var pat := "bad word";
    var out := ReplaceAll(s, pat, Marker);
    match FirstMatch(s, pat, 0)
    case Some(j) =>
      if j < 8 {
        ReplaceLeftmost(s, j, pat, Marker);
        BracketBlocksMatch(out, j);
      } else {
        CopiedPrefix(s, 8, pat, Marker);
        SamePrefixSameMatch(s, out, pat);
      }
    case None =>
      if |s| >= 8 {
        CopiedPrefix(s, 8, pat, Marker);
        SamePrefixSameMatch(s, out, pat);
      } else {
        Unchanged(s, pat, Marker);
      }
  }

  /** An opening bracket inside the first eight characters rules out an
      occurrence at the front. */
  lemma BracketBlocksMatch(out: string, j: nat)
    requires j < 8 && j < |out| && out[j] == '['
    ensures !MatchesAt(out, 0, "bad word")
  {
    MarkerBreaksWord();
  }

  /** Texts that agree on their first |pat| characters both start with an
      occurrence or both do not. */
  lemma SamePrefixSameMatch(a: string, b: string, pat: string)
    requires |pat| <= |a| && |pat| <= |b| && a[..|pat|] == b[..|pat|]
    ensures MatchesAt(a, 0, pat) <==> MatchesAt(b, 0, pat)
  {
    assert a[0..|pat|] == a[..|pat|];
    assert b[0..|pat|] == b[..|pat|];
  }

  /** After filtering, no case-insensitive occurrence of the sensitive word
      is left: the marker cannot take part in one, and the copied text had
      none, since every occurrence that the scan reaches is replaced. */
  lemma {:induction false} NoSensitiveWordLeft(s: string)
    ensures NoMatchBefore(ReplaceAll(s, "bad word", Marker), |ReplaceAll(s, "bad word", Marker)|, "bad word")
    decreases |s|
  {
    var pat := "bad word";
    var out := ReplaceAll(s, pat, Marker);
    if s == [] {
    } else if MatchesAt(s, 0, pat) {
      var t := ReplaceAll(s[8..], pat, Marker);
      NoSensitiveWordLeft(s[8..]);
      forall p | 0 <= p < |out|
        ensures !MatchesAt(out, p, pat)
      {
        if p < 10 {
          NoMatchAcrossMarker(t, p);
        } else {
          MatchShift(Marker, t, p, pat);
        }
      }
    } else {
      var t := ReplaceAll(s[1..], pat, Marker);
      NoSensitiveWordLeft(s[1..]);
      forall p | 0 <= p < |out|
        ensures !MatchesAt(out, p, pat)
      {
        if p == 0 {
          NoMatchAtFront(s);
        } else {
          MatchShift([s[0]], t, p, pat);
        }
      }
    }
  }

  /** The filter removes every occurrence: its output contains none, it
      changes a text exactly when the text contains one, and filtering twice
      is filtering once. */
  lemma FilterProperties(text: string)
    ensures NoMatchBefore(FilterSensitiveWords(text), |FilterSensitiveWords(text)|, "bad word")
    ensures FilterSensitiveWords(text) == text <==> NoMatchBefore(text, |text|, "bad word")
    ensures FilterSensitiveWords(FilterSensitiveWords(text)) == FilterSensitiveWords(text)
  {
    var out := FilterSensitiveWords(text);
    FilterIsOneReplacement(text);
    NoSensitiveWordLeft(text);
    ReplaceGrows(text, "bad word", Marker);
    if NoMatchBefore(text, |text|, "bad word") {
      Unchanged(text, "bad word", Marker);
    }
    FilterIsOneReplacement(out);
    Unchanged(out, "bad word", Marker);
  }

  /** Whatever the link remover does, the processed text never contains the
      sensitive word, and a cleaned text without it passes unchanged. */
  lemma ProcessTextRedacts(text: string, removeLinks: string -> string)
    ensures NoMatchBefore(ProcessText(text, removeLinks), |ProcessText(text, removeLinks)|, "bad word")
    ensures NoMatchBefore(removeLinks(text), |removeLinks(text)|, "bad word")
            ==> ProcessText(text, removeLinks) == removeLinks(text)
  {
    FilterProperties(removeLinks(text));
  }

  /** A text without a blank contains no occurrence of "bad word". */
  lemma NoBlankNoMatch(s: string)
    requires forall k :: 0 <= k < |s| ==> s[k] != ' '
    ensures NoMatchBefore(s, |s|, "bad word")
  {
    forall i | 0 <= i < |s|
      ensures !MatchesAt(s, i, "bad word")
    {
      if i + 8 <= |s| {
        assert s[i..i + 8][3] == s[i + 3];
        assert LowerAscii(s[i + 3]) != ' ';
      }
    }
  }

  /** The match is on the literal "bad word", blank included: a text that
      runs the two words together is left alone. */
  lemma JoinedWordsNotRedacted()
    ensures FilterSensitiveWords("Thisisabadwordhere") == "Thisisabadwordhere"
  {
    var s := "Thisisabadwordhere";
    assert forall k :: 0 <= k < |s| ==> s[k] != ' ';
    NoBlankNoMatch(s);
    Unchanged(s, "bad word", Marker);
    FilterIsOneReplacement(s);
  }

  /** Any mix of upper and lower case is redacted, the rest is kept.
      The example text is a parameter fixed by `requires`, here and in the
      two helpers below: on a literal argument the solver unfolds the
      recursive replacement character by character, which costs more than
      the whole proof. */
  lemma MixedCaseRedacted(s: string)
    requires s == "a BAD Word!"
    ensures FilterSensitiveWords(s) == "a [redacted]!"
  {
    ExampleMatch(s);
    ReplaceLeftmost(s, 2, "bad word", Marker);
    ExampleRest(s[10..]);
    FilterIsOneReplacement(s);
  }

  /** The one occurrence in the example, at index 2. */
  lemma ExampleMatch(s: string)
    requires s == "a BAD Word!"
    ensures MatchesAt(s, 2, "bad word") && NoMatchBefore(s, 2, "bad word")
    ensures s[..2] == "a " && s[10..] == "!"
  {
    assert s[0..8][0] == 'a' && s[1..9][0] == ' ';
    assert s[2..10] == "BAD Word";
    assert CaselessEq("BAD Word", "bad word");
  }

  /** The example's text after the occurrence has none. */
  lemma ExampleRest(t: string)
    requires t == "!"
    ensures ReplaceAll(t, "bad word", Marker) == "!"
  {
    Unchanged(t, "bad word", Marker);
  }
}
