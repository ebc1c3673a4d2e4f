/**
 * `SummarizerEngine.split_into_sentences` in `scraper/summarizer.py`: the periods of the
 * listed abbreviations are hidden behind a placeholder, the text is split at sentence ends
 * followed by whitespace and at newlines, and every piece gets its periods back, is cleaned
 * and is kept when it passes the quality filter.
 *
 * Python iterates the abbreviation set in an order fixed only by string hashing; the model
 * lets that order be any enumeration of the set, and what it proves holds for each.
 */
module Sentences {
  import opened Text
  import opened Summarizer

  // ------------------------------------------------------------ placeholders

  /** `abbr.replace('.', '<PRD>')`. */
  function ProtectedForm(abbr: string): string
  {
    ReplaceAll(abbr, ".", Placeholder)
  }

  /** `text.replace(abbr, abbr.replace('.', '<PRD>'))`. */
  function ProtectOne(text: string, abbr: string): string
    requires abbr != ""
  {
    ReplaceAll(text, abbr, ProtectedForm(abbr))
  }

  /** The protection loop, the abbreviations taken in the order `order`. */
  function ProtectIn(text: string, order: seq<string>): string
    requires forall k :: 0 <= k < |order| ==> order[k] != ""
    decreases |order|
  {
    if order == [] then text
    else
      assert forall k :: 0 <= k < |order| - 1 ==> order[1..][k] == order[k + 1];
      ProtectIn(ProtectOne(text, order[0]), order[1..])
  }

  /** `s.replace('<PRD>', '.')`. */
  function Restore(s: string): string
  {
    ReplaceAll(s, Placeholder, ".")
  }

  /** Every '<' begins a placeholder. */
  predicate WellPlaced(s: string)
  {
    forall k :: 0 <= k < |s| && s[k] == '<' ==> k + 5 <= |s| && s[k..k + 5] == Placeholder
  }

  /** The shape of an abbreviation the protection relies on: it starts with a lowercase
      letter and holds neither '<' nor whitespace. */
  predicate AbbreviationShape(a: string)
  {
    a != "" && IsAsciiLower(a[0]) && '<' !in a && forall k :: 0 <= k < |a| ==> !IsSpace(a[k])
  }

  lemma AbbreviationsShaped()
    ensures forall a :: a in Abbreviations ==> AbbreviationShape(a) && a[|a| - 1] == '.'
  {
  }

  lemma ShapedAbbreviation(a: string)
    requires a in Abbreviations
    ensures AbbreviationShape(a) && a[|a| - 1] == '.'
  {
    AbbreviationsShaped();
  }

  lemma RestoreCons(c: char, s: string)
    requires c != '<'
    ensures Restore([c] + s) == [c] + Restore(s)
  {
    ReplaceCons(c, s, Placeholder, ".");
  }

  lemma RestorePlaceholder(s: string)
    ensures Restore(Placeholder + s) == "." + Restore(s)
  {
    assert (Placeholder + s)[..5] == Placeholder;
    assert (Placeholder + s)[5..] == s;
  }

  /** Text without '<' has no placeholder to restore. */
  lemma {:induction false} RestoreNoPlaceholder(s: string)
    requires '<' !in s
    ensures Restore(s) == s
    decreases |s|
  {
    if s != [] {
      assert s == [s[0]] + s[1..];
      assert forall c :: c in s[1..] ==> c in s;
      RestoreNoPlaceholder(s[1..]);
      RestoreCons(s[0], s[1..]);
    }
  }

  /** A well-placed left part ends no placeholder early, so restoring splits over `+`. */
  lemma {:induction false} RestoreAppend(u: string, v: string)
    requires WellPlaced(u)
    ensures Restore(u + v) == Restore(u) + Restore(v)
    decreases |u|
  {
    if u == [] {
      assert u + v == v;
    } else if u[0] == '<' {
      assert u[..5] == Placeholder;
      var w := u[5..];
      assert u == Placeholder + w;
      assert u + v == Placeholder + (w + v);
      WellPlacedSuffix(u, 5);
      RestoreAppend(w, v);
      RestorePlaceholder(w + v);
      RestorePlaceholder(w);
    } else {
      var w := u[1..];
      assert u == [u[0]] + w;
      assert u + v == [u[0]] + (w + v);
      WellPlacedSuffix(u, 1);
      RestoreAppend(w, v);
      RestoreCons(u[0], w + v);
      RestoreCons(u[0], w);
    }
  }

  lemma WellPlacedSuffix(s: string, n: nat)
    requires WellPlaced(s) && n <= |s|
    ensures WellPlaced(s[n..])
  {
    var t := s[n..];
    forall k | 0 <= k < |t| && t[k] == '<' ensures k + 5 <= |t| && t[k..k + 5] == Placeholder {
      assert s[n + k] == '<';
      assert s[n + k..n + k + 5] == t[k..k + 5];
    }
  }

  lemma WellPlacedAppend(u: string, v: string)
    requires WellPlaced(u) && WellPlaced(v)
    ensures WellPlaced(u + v)
  {
    var s := u + v;
    forall k | 0 <= k < |s| && s[k] == '<' ensures k + 5 <= |s| && s[k..k + 5] == Placeholder {
      if k < |u| {
        assert u[k] == '<';
        assert s[k..k + 5] == u[k..k + 5];
      } else {
        assert v[k - |u|] == '<';
        assert s[k..k + 5] == v[k - |u|..k - |u| + 5];
      }
    }
  }

  /** The protected form of an abbreviation: no period, no whitespace, every '<' a
      placeholder, the final period become a placeholder, and restoring gives the
      abbreviation back. */
  lemma {:induction false} ProtectedFormFacts(a: string)
    requires '<' !in a && forall k :: 0 <= k < |a| ==> !IsSpace(a[k])
    ensures FormOk(a, ProtectedForm(a))
    decreases |a|
  {
    if a != [] {
      var rest := a[1..];
      assert a == [a[0]] + rest;
      assert forall d :: d in rest ==> d in a;
      ProtectedFormFacts(rest);
      ProtectedFormStep(a[0], rest, ProtectedForm(rest));
    }
  }

  /** What `ProtectedFormFacts` states of an abbreviation `a` and its form `p`. */
  predicate FormOk(a: string, p: string)
  {
    && '.' !in p && WellPlaced(p) && Restore(p) == a
    && (forall k :: 0 <= k < |p| ==> !IsSpace(p[k]))
    && (a != [] && a[|a| - 1] == '.' ==> |p| >= 5 && p[|p| - 1] == '>')
  }

  lemma ProtectedFormStep(c: char, rest: string, pr: string)
    requires c != '<' && !IsSpace(c) && pr == ProtectedForm(rest) && FormOk(rest, pr)
    ensures FormOk([c] + rest, ProtectedForm([c] + rest))
  {
    var head := if c == '.' then Placeholder else [c];
    ReplaceCharAppend([c], rest, '.', Placeholder);
    assert [c][1..] == [];
    assert ReplaceAll([c], ".", Placeholder) == head;
    HeadFormOk(c);
    if rest == [] {
      assert ReplaceAll([], ".", Placeholder) == [];
      assert [c] + rest == [c] && head + pr == head;
    } else {
      FormConcat([c], head, rest, pr);
    }
  }

  lemma HeadFormOk(c: char)
    requires c != '<' && !IsSpace(c)
    ensures FormOk([c], if c == '.' then Placeholder else [c])
  {
    if c == '.' {
      RestorePlaceholder([]);
      assert Placeholder + [] == Placeholder;
      assert Restore([]) == [];
    } else {
      RestoreCons(c, []);
      assert [c] + [] == [c];
      assert Restore([]) == [];
    }
  }

  lemma FormConcat(a1: string, p1: string, a2: string, p2: string)
    requires FormOk(a1, p1) && FormOk(a2, p2) && a2 != []
    ensures FormOk(a1 + a2, p1 + p2)
  {
    var p := p1 + p2;
    assert (a1 + a2)[|a1 + a2| - 1] == a2[|a2| - 1];
    assert WellPlaced(p) by { WellPlacedAppend(p1, p2); }
    assert Restore(p) == a1 + a2 by { RestoreAppend(p1, p2); }
    assert '.' !in p && forall k :: 0 <= k < |p| ==> !IsSpace(p[k]) by {
      assert forall k :: 0 <= k < |p| ==> p[k] == if k < |p1| then p1[k] else p2[k - |p1|];
    }
  }

  /** One protection step keeps every '<' a placeholder and leaves the restored text as it
      was. */
  lemma {:induction false} ProtectOneRestores(t: string, a: string)
    requires AbbreviationShape(a) && WellPlaced(t)
    ensures WellPlaced(ProtectOne(t, a)) && Restore(ProtectOne(t, a)) == Restore(t)
    decreases |t|
  {
    if |t| >= |a| {
      var n, g;
      if t[..|a|] == a {
        n, g := |a|, ProtectedForm(a);
        StepOverAbbreviation(t, a);
      } else if t[0] != '<' {
        n, g := 1, [t[0]];
        StepOverChar(t, a);
      } else {
        n, g := 5, Placeholder;
        StepOverPlaceholder(t, a);
      }
      WellPlacedSuffix(t, n);
      ProtectOneRestores(t[n..], a);
      RestoreGlue(t, a, n, g);
    }
  }

  /** What one step of the replacement scan consumed (`t[..n]`) and produced (`g`). */
  predicate StepOk(t: string, a: string, n: nat, g: string)
    requires a != "" && n <= |t|
  {
    ProtectOne(t, a) == g + ProtectOne(t[n..], a)
    && WellPlaced(t[..n]) && WellPlaced(g) && Restore(g) == Restore(t[..n])
  }

  /** At an occurrence the abbreviation becomes its protected form. */
  lemma StepOverAbbreviation(t: string, a: string)
    requires AbbreviationShape(a) && |t| >= |a| && t[..|a|] == a
    ensures StepOk(t, a, |a|, ProtectedForm(a))
  {
    ProtectedFormFacts(a);
    assert FormOk(a, ProtectedForm(a));
    RestoreNoPlaceholder(a);
  }

  /** Elsewhere a character other than '<' is copied. */
  lemma StepOverChar(t: string, a: string)
    requires AbbreviationShape(a) && |t| >= |a| && t[..|a|] != a && t[0] != '<'
    ensures StepOk(t, a, 1, [t[0]])
  {
    assert t[..1] == [t[0]];
    RestoreCons(t[0], []);
    assert Restore([]) == [];
  }

  /** A placeholder is copied whole: the abbreviation cannot start inside it. */
  lemma StepOverPlaceholder(t: string, a: string)
    requires AbbreviationShape(a) && WellPlaced(t) && t != [] && t[0] == '<'
    ensures StepOk(t, a, 5, Placeholder)
  {
    assert t[..5] == Placeholder;
    assert t == Placeholder + t[5..];
    ReplacePrefixFree(Placeholder, t[5..], a, ProtectedForm(a));
  }

  /** The step and the rest put back together. */
  lemma RestoreGlue(t: string, a: string, n: nat, g: string)
    requires a != "" && 0 < n <= |t| && StepOk(t, a, n, g)
    requires WellPlaced(ProtectOne(t[n..], a)) && Restore(ProtectOne(t[n..], a)) == Restore(t[n..])
    ensures WellPlaced(ProtectOne(t, a)) && Restore(ProtectOne(t, a)) == Restore(t)
  {
    var x := ProtectOne(t[n..], a);
    WellPlacedAppend(g, x);
    RestoreAppend(g, x);
    assert t == t[..n] + t[n..];
    RestoreAppend(t[..n], t[n..]);
  }

  /** The whole protection loop, in any order, is undone by restoring. */
  lemma {:induction false} ProtectInRestores(t: string, order: seq<string>)
    requires forall k :: 0 <= k < |order| ==> order[k] != "" && AbbreviationShape(order[k])
    requires WellPlaced(t)
    ensures WellPlaced(ProtectIn(t, order)) && Restore(ProtectIn(t, order)) == Restore(t)
    decreases |order|
  {
    if order != [] {
      ProtectOneRestores(t, order[0]);
      assert forall k :: 0 <= k < |order| - 1 ==> order[1..][k] == order[k + 1];
      ProtectInRestores(ProtectOne(t, order[0]), order[1..]);
    }
  }

  /** Round trip: for a text without '<', restoring the protected text gives the text. */
  lemma RestoreProtected(t: string, order: seq<string>)
    requires forall k :: 0 <= k < |order| ==> order[k] in Abbreviations
    requires '<' !in t
    ensures Restore(ProtectIn(t, order)) == t
  {
    AbbreviationsShaped();
    ProtectInRestores(t, order);
    RestoreNoPlaceholder(t);
  }

  // ------------------------------------------------------------ re.split

  /** Length of the whitespace run from `i`. */
  function SpaceRun(s: string, i: nat): (j: nat)
    requires i <= |s|
    ensures i <= j <= |s| && (j < |s| ==> !IsSpace(s[j]))
    ensures forall k :: i <= k < j ==> IsSpace(s[k])
    decreases |s| - i
  {
    if i < |s| && IsSpace(s[i]) then SpaceRun(s, i + 1) else i
  }

  /** Length of the newline run from `i`. */
  function NewlineRun(s: string, i: nat): (j: nat)
    requires i <= |s|
    ensures i <= j <= |s| && (j < |s| ==> s[j] != '\n')
    ensures forall k :: i <= k < j ==> s[k] == '\n'
    decreases |s| - i
  {
    if i < |s| && s[i] == '\n' then NewlineRun(s, i + 1) else i
  }

  /** Where `(?<=[.!?])\s+` matches: whitespace right after a sentence end. */
  predicate EndBreak(s: string, i: nat)
  {
    0 < i < |s| && IsTerminal(s[i - 1]) && IsSpace(s[i])
  }

  /** Where the pattern `(?<=[.!?])\s+|\n+` matches at all. */
  predicate BreakAt(s: string, i: nat)
  {
    EndBreak(s, i) || (i < |s| && s[i] == '\n')
  }

  /** Where the match found at `i` ends: the first alternative takes the whole whitespace
      run, the second the run of newlines. */
  function BreakEnd(s: string, i: nat): (j: nat)
    requires BreakAt(s, i)
    ensures i < j <= |s|
  {
    if EndBreak(s, i) then SpaceRun(s, i) else NewlineRun(s, i)
  }

  /** No break point at any position of `p`. */
  predicate Unbroken(p: string)
  {
    forall k :: 0 <= k < |p| ==> !BreakAt(p, k)
  }

  /** The scan of `re.split`: the current piece started at `st`, and positions `st` to
      `i - 1` are not break points. */
  function SplitFrom(s: string, st: nat, i: nat): (r: seq<string>)
    requires st <= i <= |s|
    requires forall k :: st <= k < i ==> !BreakAt(s, k)
    ensures |r| >= 1
    ensures forall p :: p in r ==> Unbroken(p) && '\n' !in p
    decreases |s| - i
  {
    if i == |s| then
      PieceUnbroken(s, st, i);
      assert s[st..] == s[st..i];
      [s[st..]]
    else if BreakAt(s, i) then
      PieceUnbroken(s, st, i);
      var j := BreakEnd(s, i);
      [s[st..i]] + SplitFrom(s, j, j)
    else SplitFrom(s, st, i + 1)
  }

  /** A stretch of `s` with no break point is unbroken on its own: inside it the
      look-behind sees the same characters, and at its start a newline would have been one. */
  lemma PieceUnbroken(s: string, st: nat, i: nat)
    requires st <= i <= |s|
    requires forall k :: st <= k < i ==> !BreakAt(s, k)
    ensures Unbroken(s[st..i]) && '\n' !in s[st..i]
  {
    var p := s[st..i];
    forall k | 0 <= k < |p| ensures !BreakAt(p, k) && p[k] != '\n' {
      assert p[k] == s[st + k];
      assert !BreakAt(s, st + k);
      if k > 0 {
        assert p[k - 1] == s[st + k - 1];
      }
    }
  }

  /** `re.split(r'(?<=[.!?])\s+|\n+', text)`. */
  function SplitPieces(s: string): (r: seq<string>)
    ensures |r| >= 1
    ensures forall p :: p in r ==> Unbroken(p) && '\n' !in p
  {
    SplitFrom(s, 0, 0)
  }

  /** A text with no break point is one piece. */
  lemma NoBreakOnePiece(s: string)
    requires forall k :: 0 <= k < |s| ==> !BreakAt(s, k)
    ensures SplitPieces(s) == [s]
  {
    NoBreakScan(s, 0);
  }

  lemma {:induction false} NoBreakScan(s: string, i: nat)
    requires i <= |s| && forall k :: 0 <= k < |s| ==> !BreakAt(s, k)
    ensures SplitFrom(s, 0, i) == [s]
    decreases |s| - i
  {
    if i < |s| {
      NoBreakScan(s, i + 1);
    }
  }

  /** A piece ending in a sentence end, a single space, and the rest split on their own:
      the text splits there. */
  lemma SentenceThenSpace(x: string, y: string)
    requires x != [] && IsTerminal(x[|x| - 1]) && Unbroken(x)
    requires y == [] || !IsSpace(y[0])
    ensures SplitPieces(x + " " + y) == [x] + SplitPieces(y)
  {
    var s := x + " " + y;
    forall k | 0 <= k < |x| ensures !BreakAt(s, k) {
      assert s[k] == x[k];
      if k > 0 { assert s[k - 1] == x[k - 1]; }
      assert !BreakAt(x, k);
    }
    ScanTo(s, 0, |x|);
    assert EndBreak(s, |x|);
    assert SpaceRun(s, |x| + 1) == |x| + 1;
    assert s[..|x|] == x;
    ScanShift(x + " ", y);
  }

  /** Scanning over positions that are not break points keeps the piece open. */
  lemma {:induction false} ScanTo(s: string, st: nat, i: nat)
    requires st <= i <= |s| && forall k :: st <= k < i ==> !BreakAt(s, k)
    ensures SplitFrom(s, st, st) == SplitFrom(s, st, i)
    decreases i - st
  {
    if i > st {
      ScanTo(s, st, i - 1);
      ScanStepOver(s, st, i - 1);
    }
  }

  lemma ScanStepOver(s: string, st: nat, i: nat)
    requires st <= i < |s| && forall k :: st <= k <= i ==> !BreakAt(s, k)
    ensures SplitFrom(s, st, i) == SplitFrom(s, st, i + 1)
  {
  }

  /** After a break that ends where a space-free string follows a space, the scan proceeds
      as on that string alone. */
  lemma ScanShift(x: string, y: string)
    requires x != [] && x[|x| - 1] == ' '
    requires y == [] || !IsSpace(y[0])
    ensures SplitFrom(x + y, |x|, |x|) == SplitFrom(y, 0, 0)
  {
    SuffixScan(x, y, 0, 0);
  }

  /** The scan of `x + y` from `|x|` on mirrors the scan of `y`. */
  lemma {:induction false} SuffixScan(x: string, y: string, st: nat, i: nat)
    requires x != [] && x[|x| - 1] == ' '
    requires st <= i <= |y|
    requires forall k :: st <= k < i ==> !BreakAt(y, k)
    requires forall k :: |x| + st <= k < |x| + i ==> !BreakAt(x + y, k)
    ensures SplitFrom(x + y, |x| + st, |x| + i) == SplitFrom(y, st, i)
    decreases |y| - i
  {
    if i < |y| {
      SeamBreaks(x, y);
      if BreakAt(y, i) {
        var j := BreakEnd(y, i);
        SuffixScan(x, y, j, j);
        SuffixBreakStep(x, y, st, i);
      } else {
        SuffixScan(x, y, st, i + 1);
      }
    } else {
      assert (x + y)[|x| + st..] == y[st..];
    }
  }

  lemma SuffixBreakStep(x: string, y: string, st: nat, i: nat)
    requires x != [] && x[|x| - 1] == ' '
    requires st <= i < |y| && BreakAt(y, i)
    requires forall k :: st <= k < i ==> !BreakAt(y, k)
    requires forall k :: |x| + st <= k < |x| + i ==> !BreakAt(x + y, k)
    requires SplitFrom(x + y, |x| + BreakEnd(y, i), |x| + BreakEnd(y, i)) == SplitFrom(y, BreakEnd(y, i), BreakEnd(y, i))
    ensures SplitFrom(x + y, |x| + st, |x| + i) == SplitFrom(y, st, i)
  {
    var s, j := x + y, BreakEnd(y, i);
    SliceShift(x, y, st, i);
    assert BreakAt(s, |x| + i) && BreakEnd(s, |x| + i) == |x| + j by { RunShift(x, y, i); }
    assert SplitFrom(y, st, i) == [y[st..i]] + SplitFrom(y, j, j);
    assert SplitFrom(s, |x| + st, |x| + i) == [s[|x| + st..|x| + i]] + SplitFrom(s, |x| + j, |x| + j);
  }

  lemma SliceShift(x: string, y: string, a: nat, b: nat)
    requires a <= b <= |y|
    ensures (x + y)[|x| + a..|x| + b] == y[a..b]
  {
  }

  /** The look-behind at the seam sees a space, which is no sentence end, so break points
      of `x + y` past `x` are those of `y`. */
  lemma SeamBreaks(x: string, y: string)
    requires x != [] && x[|x| - 1] == ' '
    ensures forall k :: 0 <= k < |y| ==> (BreakAt(x + y, |x| + k) <==> BreakAt(y, k))
  {
    var s := x + y;
    forall k | 0 <= k < |y| ensures BreakAt(s, |x| + k) <==> BreakAt(y, k) {
      assert s[|x| + k] == y[k];
      if k > 0 { assert s[|x| + k - 1] == y[k - 1]; } else { assert s[|x| - 1] == ' '; }
    }
  }

  /** Runs measured in `x + y` from inside `y` are runs measured in `y`. */
  lemma RunShift(x: string, y: string, i: nat)
    requires x != [] && x[|x| - 1] == ' ' && i < |y| && BreakAt(y, i)
    ensures BreakAt(x + y, |x| + i) && BreakEnd(x + y, |x| + i) == |x| + BreakEnd(y, i)
  {
    var s := x + y;
    assert forall k :: 0 <= k < |y| ==> s[|x| + k] == y[k];
    if EndBreak(y, i) {
      assert s[|x| + i - 1] == y[i - 1];
      SpaceRunShift(x, y, i);
    } else {
      assert !EndBreak(s, |x| + i) by {
        if i > 0 { assert s[|x| + i - 1] == y[i - 1]; } else { assert s[|x| - 1] == ' '; }
      }
      NewlineRunShift(x, y, i);
    }
  }

  lemma {:induction false} SpaceRunShift(x: string, y: string, i: nat)
    requires i <= |y|
    ensures SpaceRun(x + y, |x| + i) == |x| + SpaceRun(y, i)
    decreases |y| - i
  {
    if i < |y| {
      assert (x + y)[|x| + i] == y[i];
      SpaceRunShift(x, y, i + 1);
    }
  }

  lemma {:induction false} NewlineRunShift(x: string, y: string, i: nat)
    requires i <= |y|
    ensures NewlineRun(x + y, |x| + i) == |x| + NewlineRun(y, i)
    decreases |y| - i
  {
    if i < |y| {
      assert (x + y)[|x| + i] == y[i];
      NewlineRunShift(x, y, i + 1);
    }
  }

  /** Inside a protected abbreviation nothing splits, and the character after it cannot end
      a sentence: only a newline there still breaks the text. */
  lemma AbbreviationNoBreak(u: string, a: string, v: string)
    requires a in Abbreviations
    ensures var p, s := ProtectedForm(a), u + ProtectedForm(a) + v;
      && (forall k :: |u| <= k < |u| + |p| ==> !BreakAt(s, k))
      && !EndBreak(s, |u| + |p|)
  {
    ShapedAbbreviation(a);
    ShapedSolid(a);
    SolidNoBreak(u, ProtectedForm(a), v);
  }

  /** The form of an abbreviation-shaped string ending in '.' is solid and ends in '>'. */
  lemma ShapedSolid(a: string)
    requires AbbreviationShape(a) && a[|a| - 1] == '.'
    ensures var p := ProtectedForm(a);
      |p| >= 1 && p[|p| - 1] == '>' && forall k :: 0 <= k < |p| ==> !IsSpace(p[k])
  {
    ProtectedFormFacts(a);
  }

  /** A nonempty stretch with neither whitespace nor a newline, ending in '>', holds no break
      point and makes none right after it. */
  lemma SolidNoBreak(u: string, p: string, v: string)
    requires |p| >= 1 && p[|p| - 1] == '>' && forall k :: 0 <= k < |p| ==> !IsSpace(p[k])
    ensures var s := u + p + v;
      && (forall k :: |u| <= k < |u| + |p| ==> !BreakAt(s, k))
      && !EndBreak(s, |u| + |p|)
  {
    var s := u + p + v;
    assert forall k :: |u| <= k < |u| + |p| ==> s[k] == p[k - |u|];
  }

  // ------------------------------------------------------------ split_into_sentences

  /** Taking one more abbreviation last protects it in the text protected so far. */
  lemma {:induction false} ProtectInSnoc(text: string, order: seq<string>, a: string)
    requires a != "" && forall k :: 0 <= k < |order| ==> order[k] != ""
    ensures ProtectIn(text, order + [a]) == ProtectOne(ProtectIn(text, order), a)
    decreases |order|
  {
    if order == [] {
      assert [a][1..] == [];
    } else {
      assert (order + [a])[1..] == order[1..] + [a];
      ProtectInSnoc(ProtectOne(text, order[0]), order[1..], a);
    }
  }

  /** The protection loop: every abbreviation once, in an order the set iteration picks. */
  method ProtectAbbreviations(text: string) returns (r: string, ghost order: seq<string>)
    ensures |order| == |Abbreviations|
    ensures forall a :: a in order <==> a in Abbreviations
    ensures forall k :: 0 <= k < |order| ==> order[k] != ""
    ensures r == ProtectIn(text, order)
  {
    r := text;
    order := [];
    var remaining := Abbreviations;
    while remaining != {}
      invariant remaining <= Abbreviations
      invariant forall a :: a in order <==> a in Abbreviations && a !in remaining
      invariant |order| + |remaining| == |Abbreviations|
      invariant forall k :: 0 <= k < |order| ==> order[k] != ""
      invariant r == ProtectIn(text, order)
      decreases |remaining|
    {
      var a :| a in remaining;
      ShapedAbbreviation(a);
      ProtectInSnoc(text, order, a);
      r := ReplaceAll(r, a, ReplaceAll(a, ".", Placeholder));
      order := order + [a];
      remaining := remaining - {a};
    }
  }

  /** A piece with its periods restored, cleaned. */
  function Cleaned(piece: string): string
  {
    CleanSentence(Restore(piece))
  }

  /** Each element mapped by `f`, kept when `keep` holds of the image. */
  function FilterMap(xs: seq<string>, f: string -> string, keep: string -> bool): (r: seq<string>)
    ensures |r| <= |xs|
    decreases |xs|
  {
    if xs == [] then []
    else
      var c := f(xs[|xs| - 1]);
      FilterMap(xs[..|xs| - 1], f, keep) + (if keep(c) then [c] else [])
  }

  lemma FilterMapSnoc(xs: seq<string>, x: string, f: string -> string, keep: string -> bool)
    ensures FilterMap(xs + [x], f, keep) == FilterMap(xs, f, keep) + (if keep(f(x)) then [f(x)] else [])
  {
    assert (xs + [x])[..|xs|] == xs;
  }

  /** The kept images are exactly the images that pass. */
  lemma {:induction false} FilterMapExactly(xs: seq<string>, f: string -> string, keep: string -> bool)
    ensures forall s :: s in FilterMap(xs, f, keep) ==> keep(s) && exists x :: x in xs && s == f(x)
    ensures forall x :: x in xs && keep(f(x)) ==> f(x) in FilterMap(xs, f, keep)
    decreases |xs|
  {
    if xs != [] {
      var init, last := xs[..|xs| - 1], xs[|xs| - 1];
      assert xs == init + [last];
      FilterMapExactly(init, f, keep);
      forall s | s in FilterMap(xs, f, keep) ensures keep(s) && exists x :: x in xs && s == f(x) {
        if s in FilterMap(init, f, keep) {
          var x :| x in init && s == f(x);
          assert x in xs;
        } else {
          assert s == f(last);
        }
      }
    }
  }

  /** What the sentence loop keeps of the pieces: each cleaned, and kept when it passes the
      quality filter. */
  function Kept(pieces: seq<string>): seq<string>
  {
    FilterMap(pieces, Cleaned, IsHighQuality)
  }

  /** Every kept sentence is clean: collapsed, capitalised and ended. */
  lemma KeptClean(pieces: seq<string>)
    ensures forall s :: s in Kept(pieces) ==> IsHighQuality(s) && Collapsed(s) && !IsAsciiLower(s[0]) && IsTerminal(s[|s| - 1])
  {
    FilterMapExactly(pieces, Cleaned, IsHighQuality);
    forall s | s in Kept(pieces) ensures IsHighQuality(s) && Collapsed(s) && !IsAsciiLower(s[0]) && IsTerminal(s[|s| - 1]) {
      var p :| p in pieces && s == Cleaned(p);
      CleanedHighQuality(p);
    }
  }

  lemma CleanedHighQuality(p: string)
    requires IsHighQuality(Cleaned(p))
    ensures var s := Cleaned(p); s != "" && Collapsed(s) && !IsAsciiLower(s[0]) && IsTerminal(s[|s| - 1])
  {
  }

  /** `split_into_sentences`. */
  method SplitIntoSentences(text: string) returns (sentences: seq<string>, ghost order: seq<string>)
    ensures |order| == |Abbreviations| && forall a :: a in order <==> a in Abbreviations
    ensures forall k :: 0 <= k < |order| ==> order[k] != ""
    ensures sentences == Kept(SplitPieces(ProtectIn(text, order)))
    ensures forall s :: s in sentences ==> IsHighQuality(s) && Collapsed(s) && !IsAsciiLower(s[0]) && IsTerminal(s[|s| - 1])
  {
    var protected;
    protected, order := ProtectAbbreviations(text);
    var pieces := SplitPieces(protected);
    sentences := CleanPieces(pieces, Cleaned, IsHighQuality);
    KeptClean(pieces);
  }

  /** The loop of `split_into_sentences` over the pieces, written over the cleaning step
      (restoring the periods and `clean_sentence`) and the filter it calls. */
  method CleanPieces(pieces: seq<string>, clean: string -> string, keep: string -> bool)
    returns (sentences: seq<string>)
    ensures sentences == FilterMap(pieces, clean, keep)
  {
    sentences := [];
    var i := 0;
    while i < |pieces|
      invariant 0 <= i <= |pieces|
      invariant sentences == FilterMap(pieces[..i], clean, keep)
    {
      var s := clean(pieces[i]);
      if keep(s) {
        sentences := sentences + [s];
      }
      assert pieces[..i + 1] == pieces[..i] + [pieces[i]];
      FilterMapSnoc(pieces[..i], pieces[i], clean, keep);
      i := i + 1;
    }
    assert pieces[..i] == pieces;
  }
}
