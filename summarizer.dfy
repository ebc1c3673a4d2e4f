/**
 * The text rules of `SummarizerEngine` in `scraper/summarizer.py`: sentence cleaning, the
 * sentence-quality filter, the word-set similarity, sentence splitting that protects
 * abbreviations, and the parts of `generate_summary` that pick the executive summary and
 * the highlights from an already ranked list of sentences.
 *
 * The regular expressions of the source are written out as scanners over characters. Their
 * character classes are modelled on ASCII: `\d` is an ASCII digit, and `\w` is an ASCII
 * letter, digit or `_`, or any other non-ASCII character that is not whitespace.
 */
module Summarizer {
  import opened Text
  import Sorting

  // ------------------------------------------------------------ word lists

  const Abbreviations: set<string> :=
    {"dr.", "mr.", "mrs.", "ms.", "jr.", "sr.", "e.g.", "i.e.", "vs.", "ph.d.", "u.s.", "st."}

  /** First words that make a sentence depend on one before it. */
  const BadStartWords: set<string> :=
    {"but", "and", "or", "because", "so", "however", "therefore", "moreover", "also"}

  /** Phrases of page furniture (buttons, banners, footers). */
  const JunkPhrases: set<string> :=
    {"click here", "subscribe", "sign up", "log in", "cookie policy", "read more", "learn more",
     "all rights reserved", "privacy policy", "terms of service", "skip to content", "newsletter",
     "share this", "follow us", "advertisement", "sponsored", "related posts", "leave a comment"}

  /** Words the similarity ignores. */
  const StopWords: set<string> :=
    {"the", "a", "an", "and", "or", "but", "is", "are", "was", "were", "to", "in", "on", "of",
     "for", "with", "it", "this", "that"}

  /** Function words one of which every accepted sentence must contain. */
  const GlueWords: set<string> :=
    {"the", "a", "an", "to", "of", "in", "on", "is", "are", "was", "with", "for", "and", "or",
     "as", "by", "at", "from", "it", "this", "that"}

  /** The placeholder an abbreviation's periods become while the text is split. */
  const Placeholder := "<PRD>"

  // ------------------------------------------------------------ character classes

  /** The `\w` class, approximated: ASCII letters, digits and `_`, plus every non-ASCII
      character that is not whitespace. Python counts non-ASCII punctuation (curly quotes,
      dashes, the ellipsis) as `\W`; this class does not. */
  predicate IsWordChar(c: char)
  {
    IsAsciiLetter(c) || IsAsciiDigit(c) || c == '_' || (c as int >= 128 && !IsSpace(c))
  }

  /** The leading bullets `clean_sentence` drops: `^`, the three characters 'â', '€' and '¢'
      (the UTF-8 bytes of '•' read as cp1252), '-', '*', '|' and '>'. */
  predicate IsBullet(c: char)
  {
    c == '^' || c == '\U{e2}' || c == '\U{20ac}' || c == '\U{a2}' || c == '-' || c == '*' || c == '|' || c == '>'
  }

  predicate IsTerminal(c: char)
  {
    c == '.' || c == '!' || c == '?'
  }

  // ------------------------------------------------------------ citation markers

  /** Length of the run of ASCII digits `s` starts with. */
  function DigitRun(s: string): (n: nat)
    ensures n <= |s|
    ensures forall k :: 0 <= k < n ==> IsAsciiDigit(s[k])
    ensures n < |s| ==> !IsAsciiDigit(s[n])
    decreases |s|
  {
    if s != [] && IsAsciiDigit(s[0]) then 1 + DigitRun(s[1..]) else 0
  }

  lemma {:induction false} DigitRunAppend(a: string, b: string)
    ensures DigitRun(a + b) == if DigitRun(a) < |a| then DigitRun(a) else |a| + DigitRun(b)
    decreases |a|
  {
    if a != [] {
      assert (a + b)[1..] == a[1..] + b;
      if IsAsciiDigit(a[0]) {
        DigitRunAppend(a[1..], b);
      }
    } else {
      assert a + b == b;
    }
  }

  /** The length of the citation marker (`[`, one or more digits, `]`) that `s` starts
      with, or 0 when it starts with none. */
  function MarkerLen(s: string): (n: nat)
    ensures n == 0 || (3 <= n <= |s| && s[0] == '[' && s[n - 1] == ']' && IsDigits(s[1..n - 1]))
  {
    if s == [] || s[0] != '[' then 0
    else
      var d := DigitRun(s[1..]);
      if d > 0 && 1 + d < |s| && s[1 + d] == ']' then
        assert forall k :: 0 <= k < d ==> s[1..d + 1][k] == s[1..][k];
        d + 2
      else 0
  }

  /** What follows a non-empty string cannot change the marker it starts with, when it
      begins with '['. */
  lemma MarkerLenExtend(a: string, b: string)
    requires a != [] && b != [] && b[0] == '['
    ensures MarkerLen(a + b) == MarkerLen(a)
  {
    if a[0] == '[' {
      assert (a + b)[1..] == a[1..] + b;
      DigitRunAppend(a[1..], b);
      DigitRunAppend([], b);
      assert b == [b[0]] + b[1..];
      assert DigitRun(b) == 0;
    }
  }

  /** `re.sub(r'\[\d+\]', '', s)`: the markers found scanning from the left are removed,
      the scan resuming after each. */
  function StripCitations(s: string): (r: string)
    ensures |r| <= |s|
    ensures forall c :: c in r ==> c in s
    decreases |s|
  {
    if s == [] then []
    else
      var n := MarkerLen(s);
      if n > 0 then StripCitations(s[n..]) else [s[0]] + StripCitations(s[1..])
  }

  /** A marker between two texts disappears, and with it only itself. */
  lemma CitationRemoved(x: string, digits: string, y: string)
    requires IsDigits(digits)
    ensures StripCitations(x + "[" + digits + "]" + y) == StripCitations(x) + StripCitations(y)
  {
    var rest := "[" + digits + "]" + y;
    assert x + "[" + digits + "]" + y == x + rest;
    MarkerAtStart(digits, y);
    BracketTail(x, rest, StripCitations(y));
  }

  /** The scan never runs from `x` into a following text that starts with '['. */
  lemma {:induction false} BracketTail(x: string, rest: string, tail: string)
    requires rest != [] && rest[0] == '[' && StripCitations(rest) == tail
    ensures StripCitations(x + rest) == StripCitations(x) + tail
    decreases |x|
  {
    if x == [] {
      assert x + rest == rest;
    } else {
      var k := ScanStep(x, rest);
      BracketTail(x[k..], rest, tail);
      var head := if MarkerLen(x) > 0 then [] else [x[0]];
      Regroup(StripCitations(x + rest), StripCitations(x), head, StripCitations(x[k..] + rest), StripCitations(x[k..]), tail);
    }
  }

  lemma Regroup(a: string, c: string, h: string, b: string, d: string, t: string)
    requires a == h + b && c == h + d && b == d + t
    ensures a == c + t
  {
    assert h + (d + t) == (h + d) + t;
  }

  /** One step of the scan over `x + rest` stays inside `x` when `rest` starts with '['. */
  lemma ScanStep(x: string, rest: string) returns (k: nat)
    requires x != [] && rest != [] && rest[0] == '['
    ensures 0 < k <= |x|
    ensures var head := if MarkerLen(x) > 0 then [] else [x[0]];
      && StripCitations(x + rest) == head + StripCitations(x[k..] + rest)
      && StripCitations(x) == head + StripCitations(x[k..])
  {
    MarkerLenExtend(x, rest);
    var n := MarkerLen(x);
    k := if n > 0 then n else 1;
    assert (x + rest)[k..] == x[k..] + rest;
  }

  /** A text that starts with a marker loses exactly that marker first. */
  lemma MarkerAtStart(digits: string, y: string)
    requires IsDigits(digits)
    ensures StripCitations("[" + digits + "]" + y) == StripCitations(y)
  {
    var s := "[" + digits + "]" + y;
    assert s[1..] == digits + ("]" + y);
    DigitRunAppend(digits, "]" + y);
    assert DigitRun("]" + y) == 0;
    assert MarkerLen(s) == |digits| + 2;
    assert s[|digits| + 2..] == y;
  }

  /** Text without '[' has no marker to remove. */
  lemma {:induction false} NoBracketUnchanged(s: string)
    requires '[' !in s
    ensures StripCitations(s) == s
    decreases |s|
  {
    if s != [] {
      assert forall c :: c in s[1..] ==> c in s;
      NoBracketUnchanged(s[1..]);
    }
  }

  // ------------------------------------------------------------ whitespace

  /** Every whitespace character is a single space, and no two spaces are adjacent. */
  predicate SingleSpaced(s: string)
  {
    && (forall k :: 0 <= k < |s| && IsSpace(s[k]) ==> s[k] == ' ')
    && (forall k :: 0 <= k < |s| - 1 && s[k] == ' ' ==> s[k + 1] != ' ')
  }

  /** `re.sub(r'\s+', ' ', s)`: every run of whitespace becomes one space. */
  function SquashSpaces(s: string): (r: string)
    ensures SingleSpaced(r)
    ensures r == [] <==> s == []
    ensures s != [] && !IsSpace(s[0]) ==> r[0] == s[0]
    decreases |s|
  {
    if s == [] then []
    else if IsSpace(s[0]) then
      var rest := LStripBy(s, IsSpace);
      var t := SquashSpaces(rest);
      assert rest != [] ==> !IsSpace(rest[0]);
      [' '] + t
    else [s[0]] + SquashSpaces(s[1..])
  }

  /** A string whose only whitespace is single spaces is its own squash. */
  lemma {:induction false} SquashSpacesUnchanged(s: string)
    requires SingleSpaced(s)
    ensures SquashSpaces(s) == s
    decreases |s|
  {
    if s != [] {
      if IsSpace(s[0]) {
        var rest := LStripBy(s, IsSpace);
        if |s| > 1 {
          assert !IsSpace(s[1]);
          assert LStripBy(s[1..], IsSpace) == s[1..];
        }
        assert rest == s[1..];
      }
      SquashSpacesUnchanged(s[1..]);
    }
  }

  /** The strip of a squashed string: collapsed. */
  lemma StripSquashedCollapsed(s: string)
    requires SingleSpaced(s)
    ensures Collapsed(Strip(s))
  {
    var l := LStripBy(s, IsSpace);
    assert SingleSpaced(l) by { SliceKeepsSpaces(s, |s| - |l|, |s|); }
    var r := RStripBy(l, IsSpace);
    assert SingleSpaced(r) by { SliceKeepsSpaces(l, 0, |r|); }
    assert Strip(s) == r;
  }

  /** A slice of a single-spaced string is single-spaced. */
  lemma SliceKeepsSpaces(s: string, i: nat, j: nat)
    requires i <= j <= |s| && SingleSpaced(s)
    ensures SingleSpaced(s[i..j])
  {
    var t := s[i..j];
    assert forall k :: 0 <= k < |t| ==> t[k] == s[i + k];
  }

  // ------------------------------------------------------------ clean_sentence

  /** `re.sub(r'^[bullets]\s*', '', s)`: one bullet at the very start and the whitespace
      after it are dropped. */
  function DropBullet(s: string): (r: string)
    ensures |r| <= |s| && r == s[|s| - |r|..]
    ensures r != s ==> IsBullet(s[0]) && forall k :: 1 <= k < |s| - |r| ==> IsSpace(s[k])
    ensures s != [] && IsBullet(s[0]) ==> r != s && (r != [] ==> !IsSpace(r[0]))
  {
    if s != [] && IsBullet(s[0]) then
      var r := LStripBy(s[1..], IsSpace);
      assert forall k :: 1 <= k < |s| - |r| ==> s[k] == s[1..][k - 1];
      r
    else s
  }

  /** The citations, the bullet and the surplus whitespace removed. */
  function Squashed(text: string): (r: string)
    ensures Collapsed(r)
  {
    var t := SquashSpaces(DropBullet(StripCitations(text)));
    StripSquashedCollapsed(t);
    Strip(t)
  }

  /** Step 1 of `clean_sentence`: a lowercase first letter is made uppercase. */
  function Capitalise(t: string): (r: string)
    requires t != "" && Collapsed(t)
    ensures |r| == |t| && r[1..] == t[1..] && Collapsed(r) && !IsAsciiLower(r[0])
    ensures IsAsciiLower(t[0]) ==> r[0] == UpperChar(t[0])
    ensures !IsAsciiLower(t[0]) ==> r == t
    ensures IsTerminal(r[|r| - 1]) <==> IsTerminal(t[|t| - 1])
  {
    if IsAsciiLower(t[0]) then
      var r := [UpperChar(t[0])] + t[1..];
      assert forall k :: 1 <= k < |r| ==> r[k] == t[k];
      r
    else t
  }

  /** Step 2 of `clean_sentence`: a period is added unless the text ends a sentence. */
  function Terminate(t: string): (r: string)
    requires t != "" && Collapsed(t)
    ensures r == t || r == t + "."
    ensures Collapsed(r) && r[0] == t[0] && IsTerminal(r[|r| - 1])
    ensures r == t <==> IsTerminal(t[|t| - 1])
  {
    if IsTerminal(t[|t| - 1]) then t
    else
      var r := t + ".";
      assert forall k :: 0 <= k < |t| ==> r[k] == t[k];
      r
  }

  /** `clean_sentence`: "" when nothing but whitespace is left once citations and the
      bullet are gone; otherwise that text with its first letter capitalised and a period
      added unless it already ends a sentence. */
  function CleanSentence(text: string): (r: string)
    ensures r != "" ==> Collapsed(r) && !IsAsciiLower(r[0]) && IsTerminal(r[|r| - 1])
    ensures r == "" <==> Squashed(text) == ""
    ensures r != "" ==> |r| >= |Squashed(text)|
  {
    var t := Squashed(text);
    if t == "" then "" else Terminate(Capitalise(t))
  }

  /** Nothing but whitespace in the input gives "". */
  lemma CleanBlank(text: string)
    requires forall k :: 0 <= k < |text| ==> IsSpace(text[k])
    ensures CleanSentence(text) == ""
  {
    var c := StripCitations(text);
    var d := DropBullet(c);
    assert forall k :: 0 <= k < |c| ==> c[k] in text;
    if c != [] {
      assert !IsBullet(c[0]);
    }
    if d != [] {
      assert IsSpace(d[0]);
      assert SquashSpaces(d)[0] == ' ';
      var q := SquashSpaces(d);
      assert Strip(q) == "" by {
        SquashCharsBlank(d);
      }
    }
  }

  /** Squashing whitespace only never makes a non-space character. */
  lemma {:induction false} SquashCharsBlank(s: string)
    requires forall k :: 0 <= k < |s| ==> IsSpace(s[k])
    ensures forall k :: 0 <= k < |SquashSpaces(s)| ==> IsSpace(SquashSpaces(s)[k])
  {
    if s != [] {
      var rest := LStripBy(s, IsSpace);
      assert rest == [];
    }
  }

  /** A sentence that is already clean (collapsed, capitalised, terminated, with no
      bullet and no marker to remove) is left as it is. */
  lemma CleanSentenceFixed(s: string)
    requires s != "" && Collapsed(s) && !IsAsciiLower(s[0]) && IsTerminal(s[|s| - 1])
    requires !IsBullet(s[0]) && StripCitations(s) == s
    ensures CleanSentence(s) == s
  {
    assert DropBullet(s) == s;
    SquashSpacesUnchanged(s);
    StripUnchanged(s);
    assert Squashed(s) == s;
  }

  // ------------------------------------------------------------ is_high_quality_sentence

  /** `words[0].lower().strip(',.')`. */
  function FirstWordKey(w: string): string
  {
    StripBy(Lower(w), c => c == ',' || c == '.')
  }

  /** How many words start with an uppercase letter. */
  function CapCount(ws: seq<string>): (n: nat)
    ensures n <= |ws|
    decreases |ws|
  {
    if ws == [] then 0
    else CapCount(ws[..|ws| - 1]) + (if ws[|ws| - 1] != "" && IsAsciiUpper(ws[|ws| - 1][0]) then 1 else 0)
  }

  /** The class `[\d\s\Wa-zA-Z]`: every character but `_` and the non-ASCII word characters. */
  predicate InJunkClass(c: char)
  {
    IsAsciiDigit(c) || IsSpace(c) || !IsWordChar(c) || IsAsciiLetter(c)
  }

  /** `re.search(r'^[\d\s\Wa-zA-Z]{1,30}$', text)`: 1 to 30 characters of the class, where
      `$` also matches before a final newline. */
  predicate JunkPattern(text: string)
  {
    (1 <= |text| <= 30 && forall k :: 0 <= k < |text| ==> InJunkClass(text[k]))
    || (|text| == 31 && text[30] == '\n' && forall k :: 0 <= k < 30 ==> InJunkClass(text[k]))
  }

  predicate HasJunkPhrase(lowerText: string)
  {
    exists p :: p in JunkPhrases && Contains(lowerText, p)
  }

  predicate HasGlueWord(lowerText: string)
  {
    exists w :: w in Words(lowerText) && w in GlueWords
  }

  /** `is_high_quality_sentence`, its checks in the source's order. The capitalised-ratio
      test `cap_count / len(words) > 0.6` is the exact rational comparison. */
  function IsHighQuality(text: string): (ok: bool)
    ensures ok ==> |text| >= 15 && |Words(text)| >= 4
    ensures ok ==> !HasJunkPhrase(Lower(text))
    ensures ok ==> FirstWordKey(Words(text)[0]) !in BadStartWords
    ensures ok ==> |Words(text)| <= 6 || 5 * CapCount(Words(text)) <= 3 * |Words(text)|
    ensures ok ==> !JunkPattern(text) && HasGlueWord(Lower(text))
  {
    var lowerText := Lower(text);
    var words := Words(text);
    if |text| < 15 || |words| < 4 then false
    else if HasJunkPhrase(lowerText) then false
    else if FirstWordKey(words[0]) in BadStartWords then false
    else if |words| > 6 && 5 * CapCount(words) > 3 * |words| then false
    else if JunkPattern(text) then false
    else HasGlueWord(lowerText)
  }

  /** The short-text pattern takes every letter: a sentence of at most 30 characters passes
      only with `_` or a non-ASCII word character in it, so nearly every accepted sentence is
      longer than 30 characters. */
  lemma ShortSentenceRejected(text: string)
    requires |text| <= 30 && forall k :: 0 <= k < |text| ==> InJunkClass(text[k])
    ensures !IsHighQuality(text)
  {
  }

  /** `InJunkClass` excludes exactly `_` and the non-ASCII word characters. */
  lemma JunkClassChars(c: char)
    ensures InJunkClass(c) <==> c != '_' && (c as int < 128 || IsSpace(c))
  {
  }

  // ------------------------------------------------------------ calculate_similarity

  /** `re.sub(r'[^\w\s]', '', s)`. */
  function DropPunct(s: string): (r: string)
    ensures forall k :: 0 <= k < |r| ==> IsWordChar(r[k]) || IsSpace(r[k])
    decreases |s|
  {
    if s == [] then []
    else (if IsWordChar(s[0]) || IsSpace(s[0]) then [s[0]] else []) + DropPunct(s[1..])
  }

  /** The lowercased, punctuation-free words of a sentence that are not stop words. */
  function SignificantWords(s: string): (ws: set<string>)
    ensures forall w :: w in ws ==> w !in StopWords && w != ""
  {
    set w | w in Words(Lower(DropPunct(s))) && w !in StopWords
  }

  /** A similarity score, kept as the exact fraction `num / den`. */
  datatype Ratio = Ratio(num: nat, den: nat)

  /** `calculate_similarity`: the Jaccard index of the two significant word sets, 0 when
      either is empty. */
  function Similarity(s1: string, s2: string): (r: Ratio)
    ensures r.den > 0 && r.num <= r.den
    ensures var a, b := SignificantWords(s1), SignificantWords(s2);
      && (a == {} || b == {} ==> r.num == 0)
      && (r.num > 0 <==> a * b != {})
      && (a != {} && b != {} ==> (r.num == r.den <==> a == b))
  {
    var a, b := SignificantWords(s1), SignificantWords(s2);
    if a == {} || b == {} then Ratio(0, 1)
    else
      JaccardBounds(a, b);
      Ratio(|a * b|, |a + b|)
  }

  /** The intersection is no larger than the union, and as large only for equal sets. */
  lemma JaccardBounds<T>(a: set<T>, b: set<T>)
    requires a != {}
    ensures 0 < |a + b| && |a * b| <= |a + b|
    ensures |a * b| == |a + b| <==> a == b
    ensures |a * b| > 0 <==> a * b != {}
  {
    var x :| x in a;
    assert x in a + b;
    assert a + b == a * b + (a + b - a * b);
    if |a * b| == |a + b| {
      assert |a + b - a * b| == 0;
      assert a + b - a * b == {};
      forall y | y in a + b ensures y in a * b {
        assert y !in a + b - a * b;
      }
    }
  }

  lemma SimilaritySymmetric(s1: string, s2: string)
    ensures Similarity(s1, s2) == Similarity(s2, s1)
  {
    var a, b := SignificantWords(s1), SignificantWords(s2);
    assert a * b == b * a && a + b == b + a;
  }

  /** `calculate_similarity(s, seen) > 0.6`, as the exact comparison of fractions. */
  predicate TooSimilar(s: string, seen: string)
  {
    var r := Similarity(s, seen);
    5 * r.num > 3 * r.den
  }

  /** The relation is symmetric, and a sentence is too similar to itself exactly when it has
      significant words. */
  lemma TooSimilarFacts(s: string, t: string)
    ensures TooSimilar(s, t) <==> TooSimilar(t, s)
    ensures TooSimilar(s, s) <==> SignificantWords(s) != {}
  {
    SimilaritySymmetric(s, t);
  }
}
