/**
 * String helpers with the semantics of the Python and JavaScript built-ins the
 * source calls: `str.isspace`, `str.strip`, `str.split()`, `sep.join`,
 * `str.startswith`, `in` on strings, `str.replace`, `str.split(',')`,
 * `str.isdigit`/`int`, `String.prototype.trim` and the ASCII part of
 * `lower()`/`upper()`.
 */
module Text {

  /** Python's `str.isspace` (and the `\s` class of `re`) on one character. */
  predicate IsSpace(c: char)
  {
    c == ' ' || ('\t' <= c <= '\r') || ('\U{1c}' <= c <= '\U{1f}') || c == '\U{85}' || c == '\U{a0}'
    || c == '\U{1680}' || ('\U{2000}' <= c <= '\U{200a}') || c == '\U{2028}' || c == '\U{2029}'
    || c == '\U{202f}' || c == '\U{205f}' || c == '\U{3000}'
  }

  /** The characters JavaScript's `trim` removes (WhiteSpace and LineTerminator). */
  predicate IsJsSpace(c: char)
  {
    c == ' ' || ('\t' <= c <= '\r') || c == '\U{a0}' || c == '\U{feff}' || c == '\U{1680}'
    || ('\U{2000}' <= c <= '\U{200a}') || c == '\U{2028}' || c == '\U{2029}' || c == '\U{202f}'
    || c == '\U{205f}' || c == '\U{3000}'
  }

  predicate IsAsciiUpper(c: char) { 'A' <= c <= 'Z' }
  predicate IsAsciiLower(c: char) { 'a' <= c <= 'z' }
  predicate IsAsciiLetter(c: char) { IsAsciiUpper(c) || IsAsciiLower(c) }
  predicate IsAsciiDigit(c: char) { '0' <= c <= '9' }

  function LowerChar(c: char): char
  {
    if IsAsciiUpper(c) then (c as int + 32) as char else c
  }

  function UpperChar(c: char): char
  {
    if IsAsciiLower(c) then (c as int - 32) as char else c
  }

  /** `lower()` / `toLowerCase()` restricted to ASCII letters. */
  function Lower(s: string): (r: string)
    ensures |r| == |s|
    ensures forall i :: 0 <= i < |s| ==> !IsAsciiUpper(r[i])
    ensures forall i :: 0 <= i < |s| && !IsAsciiUpper(s[i]) ==> r[i] == s[i]
    ensures forall i :: 0 <= i < |s| && IsAsciiUpper(s[i]) ==> IsAsciiLower(r[i]) && UpperChar(r[i]) == s[i]
  {
    seq(|s|, i requires 0 <= i < |s| => LowerChar(s[i]))
  }

  /** Lowering twice is lowering once. */
  lemma LowerIdempotent(s: string)
    ensures Lower(Lower(s)) == Lower(s)
  {
    var l := Lower(s);
    assert forall i :: 0 <= i < |l| ==> Lower(l)[i] == l[i];
  }

  /** Lowering keeps every character other than an ASCII capital, so a text without capitals
      is its own lower case. */
  lemma LowerNoCapitals(s: string)
    requires forall i :: 0 <= i < |s| ==> !IsAsciiUpper(s[i])
    ensures Lower(s) == s
  {
  }

  /** Two texts lower to the same text exactly when they agree up to the case of ASCII
      letters. */
  lemma LowerEqualIff(s: string, t: string)
    ensures Lower(s) == Lower(t) <==> |s| == |t| && forall i :: 0 <= i < |s| ==> LowerChar(s[i]) == LowerChar(t[i])
  {
    if |s| == |t| && forall i :: 0 <= i < |s| ==> LowerChar(s[i]) == LowerChar(t[i]) {
      assert forall i :: 0 <= i < |s| ==> Lower(s)[i] == Lower(t)[i];
    }
    if Lower(s) == Lower(t) {
      assert forall i :: 0 <= i < |s| ==> Lower(s)[i] == LowerChar(s[i]) && Lower(t)[i] == LowerChar(t[i]);
    }
  }

  // ---------------------------------------------------------------- prefixes

  predicate StartsWith(s: string, prefix: string)
  {
    |prefix| <= |s| && s[..|prefix|] == prefix
  }

  /** Substring test: Python's `p in s`, JavaScript's `s.includes(p)`. */
  predicate Contains(s: string, p: string)
    decreases |s|
  {
    StartsWith(s, p) || (s != [] && Contains(s[1..], p))
  }

  lemma {:induction false} ContainsAt(s: string, p: string, i: nat)
    requires i + |p| <= |s| && s[i..i + |p|] == p
    ensures Contains(s, p)
    decreases i
  {
    if i > 0 {
      assert s[1..][i - 1..i - 1 + |p|] == s[i..i + |p|];
      ContainsAt(s[1..], p, i - 1);
    }
  }

  lemma {:induction false} ContainsWitness(s: string, p: string) returns (i: nat)
    requires Contains(s, p)
    ensures i + |p| <= |s| && s[i..i + |p|] == p
    decreases |s|
  {
    if StartsWith(s, p) {
      i := 0;
    } else {
      var j := ContainsWitness(s[1..], p);
      assert s[1..][j..j + |p|] == s[j + 1..j + 1 + |p|];
      i := j + 1;
    }
  }

  /** Index of the first `c` in `s`, or `|s|` when there is none. */
  function IndexOf(s: string, c: char): (i: nat)
    ensures i <= |s|
    ensures i < |s| ==> s[i] == c
    ensures forall k :: 0 <= k < i ==> s[k] != c
    ensures i == |s| <==> c !in s
    decreases |s|
  {
    if s == [] then 0 else if s[0] == c then 0 else 1 + IndexOf(s[1..], c)
  }

  lemma IndexOfAppend(a: string, b: string, c: char)
    ensures IndexOf(a + b, c) == if c in a then IndexOf(a, c) else |a| + IndexOf(b, c)
  {
    var i := IndexOf(a + b, c);
    if c in a {
      var j := IndexOf(a, c);
      assert (a + b)[j] == c;
    } else {
      var j := IndexOf(b, c);
      assert forall k :: 0 <= k < |a| ==> (a + b)[k] == a[k];
      if j < |b| { assert (a + b)[|a| + j] == c; }
      else { assert c !in a + b by { assert forall k :: |a| <= k < |a + b| ==> (a + b)[k] == b[k - |a|]; } }
    }
  }

  /** `(s[:i], s[i+1:])` at the first `c`, or `(s, "")`: Python's `s.split(c, 1)` unpacked. */
  function SplitFirst(s: string, c: char): (r: (string, string))
    ensures c !in r.0
    ensures c !in s ==> r == (s, "")
    ensures forall d :: d !in s ==> d !in r.0 && d !in r.1
  {
    var i := IndexOf(s, c);
    if i < |s| then
      assert s == s[..i] + [c] + s[i + 1..];
      (s[..i], s[i + 1..])
    else (s, "")
  }

  /** The two halves and the separator, if there was one, make up the string. */
  lemma SplitFirstRejoin(s: string, c: char)
    ensures s == SplitFirst(s, c).0 + ((if c in s then [c] else []) + SplitFirst(s, c).1)
  {
    var i := IndexOf(s, c);
    if i < |s| {
      assert s == s[..i] + ([c] + s[i + 1..]);
    }
  }

  /** The split happens at the first occurrence, whatever follows it. */
  lemma SplitFirstAt(x: string, y: string, c: char)
    requires c !in x
    ensures SplitFirst(x + [c] + y, c) == (x, y)
  {
    var s := x + [c] + y;
    assert s[..|x|] == x && s[|x| + 1..] == y;
    assert IndexOf(s, c) == |x| by {
      assert forall k :: 0 <= k < |x| ==> s[k] == x[k];
      IndexOfFirst(s, c, |x|);
    }
  }

  lemma IndexOfFirst(s: string, c: char, i: nat)
    requires i < |s| && s[i] == c && forall k :: 0 <= k < i ==> s[k] != c
    ensures IndexOf(s, c) == i
  {
  }

  // ------------------------------------------------------------- stripping

  /** Drops the leading characters satisfying `drop`. */
  function LStripBy(s: string, drop: char -> bool): (r: string)
    ensures |r| <= |s| && r == s[|s| - |r|..]
    ensures r != [] ==> !drop(r[0])
    ensures forall k :: 0 <= k < |s| - |r| ==> drop(s[k])
    decreases |s|
  {
    if s != [] && drop(s[0]) then LStripBy(s[1..], drop) else s
  }

  /** Drops the trailing characters satisfying `drop`. */
  function RStripBy(s: string, drop: char -> bool): (r: string)
    ensures |r| <= |s| && r == s[..|r|]
    ensures r != [] ==> !drop(r[|r| - 1])
    ensures forall k :: |r| <= k < |s| ==> drop(s[k])
    decreases |s|
  {
    if s != [] && drop(s[|s| - 1]) then RStripBy(s[..|s| - 1], drop) else s
  }

  function StripBy(s: string, drop: char -> bool): string
  {
    RStripBy(LStripBy(s, drop), drop)
  }

  /** Python's `str.strip()`: the input less its leading and trailing whitespace. */
  function Strip(s: string): (r: string)
    ensures r != [] ==> !IsSpace(r[0]) && !IsSpace(r[|r| - 1])
    ensures r == "" <==> forall k :: 0 <= k < |s| ==> IsSpace(s[k])
    ensures TrimmedOf(s, r, IsSpace)
  {
    StripFacts(s, IsSpace);
    StripMiddle(s, IsSpace);
    StripBy(s, IsSpace)
  }

  lemma StripFacts(s: string, drop: char -> bool)
    ensures var r := StripBy(s, drop);
      && (r != [] ==> !drop(r[0]) && !drop(r[|r| - 1]))
      && (r == "" <==> forall k :: 0 <= k < |s| ==> drop(s[k]))
  {
    var l := LStripBy(s, drop);
    var r := RStripBy(l, drop);
    assert r != [] ==> r[0] == l[0] == s[|s| - |l|];
  }

  /** `r` is `s` less a run of `drop` characters at its start and one at its end, the first
      running up to `StripStart`. */
  predicate TrimmedOf(s: string, r: string, drop: char -> bool)
  {
    var i := StripStart(s, drop);
    && i + |r| <= |s| && r == s[i..i + |r|]
    && (forall k :: 0 <= k < i ==> drop(s[k])) && (forall k :: i + |r| <= k < |s| ==> drop(s[k]))
  }

  lemma StripMiddle(s: string, drop: char -> bool)
    ensures TrimmedOf(s, StripBy(s, drop), drop)
  {
    StripSlice(s, drop);
    StripTail(s, drop);
  }

  lemma StripSlice(s: string, drop: char -> bool)
    ensures var r := StripBy(s, drop); var i := StripStart(s, drop);
      i + |r| <= |s| && r == s[i..i + |r|]
  {
    var l := LStripBy(s, drop);
    var r := RStripBy(l, drop);
    SliceOfSuffix(s, |s| - |l|, l, r);
  }

  lemma SliceOfSuffix(s: string, i: nat, l: string, r: string)
    requires i <= |s| && l == s[i..] && |r| <= |l| && r == l[..|r|]
    ensures i + |r| <= |s| && r == s[i..i + |r|]
  {
  }

  lemma StripTail(s: string, drop: char -> bool)
    ensures var r := StripBy(s, drop); var i := StripStart(s, drop);
      forall k :: i + |r| <= k < |s| ==> drop(s[k])
  {
    var l := LStripBy(s, drop);
    var r := RStripBy(l, drop);
    var i := |s| - |l|;
    assert l == s[i..];
    forall k | i + |r| <= k < |s| ensures drop(s[k]) {
      assert s[k] == l[k - i];
    }
  }

  function StripStart(s: string, drop: char -> bool): nat
  {
    |s| - |LStripBy(s, drop)|
  }

  /** A string with no surrounding whitespace is its own strip. */
  lemma StripUnchanged(s: string)
    requires s != [] ==> !IsSpace(s[0]) && !IsSpace(s[|s| - 1])
    ensures Strip(s) == s
  {
  }

  /** JavaScript's `String.prototype.trim`: the input less its leading and trailing
      WhiteSpace and LineTerminator characters. */
  function JsTrim(s: string): (r: string)
    ensures r != [] ==> !IsJsSpace(r[0]) && !IsJsSpace(r[|r| - 1])
    ensures r == "" <==> forall k :: 0 <= k < |s| ==> IsJsSpace(s[k])
    ensures TrimmedOf(s, r, IsJsSpace)
  {
    StripFacts(s, IsJsSpace);
    StripMiddle(s, IsJsSpace);
    StripBy(s, IsJsSpace)
  }

  // ------------------------------------------------------------ word split

  /** Length of the run of non-whitespace characters `s` starts with. */
  function TokenLen(s: string): (n: nat)
    ensures n <= |s|
    ensures forall k :: 0 <= k < n ==> !IsSpace(s[k])
    ensures n < |s| ==> IsSpace(s[n])
    decreases |s|
  {
    if s == [] || IsSpace(s[0]) then 0 else 1 + TokenLen(s[1..])
  }

  /** Python's `str.split()` with no argument: the maximal runs of non-whitespace. */
  function Words(s: string): (ws: seq<string>)
    ensures forall w :: w in ws ==> w != "" && forall k :: 0 <= k < |w| ==> !IsSpace(w[k])
    ensures ws == [] <==> forall k :: 0 <= k < |s| ==> IsSpace(s[k])
    decreases |s|
  {
    if s == [] then []
    else if IsSpace(s[0]) then
      var ws := Words(s[1..]);
      assert forall k :: 1 <= k < |s| ==> s[k] == s[1..][k - 1];
      ws
    else
      var n := TokenLen(s);
      [s[..n]] + Words(s[n..])
  }

  /** The token at the start of `x` stops inside `x` when a whitespace character follows it. */
  lemma {:induction false} TokenLenBefore(x: string, y: string)
    requires y != [] && IsSpace(y[0])
    ensures TokenLen(x + y) == TokenLen(x)
    decreases |x|
  {
    if x == [] {
      assert (x + y)[0] == y[0];
    } else if !IsSpace(x[0]) {
      assert (x + y)[1..] == x[1..] + y;
      TokenLenBefore(x[1..], y);
    }
  }

  /** `split()` breaks at every whitespace character: the words around it are the words of
      each side. */
  lemma {:induction false} WordsAround(a: string, c: char, b: string)
    requires IsSpace(c)
    ensures Words(a + [c] + b) == Words(a) + Words(b)
    decreases |a|
  {
    var s := a + [c] + b;
    if a == [] {
      assert s[1..] == b;
    } else if IsSpace(a[0]) {
      assert s[1..] == a[1..] + [c] + b;
      WordsAround(a[1..], c, b);
    } else {
      var n := TokenLen(a);
      var rest := a[n..] + [c] + b;
      TokenLenBefore(a, [c] + b);
      assert s == a + ([c] + b);
      assert s[..n] == a[..n] && s[n..] == rest;
      WordsAround(a[n..], c, b);
      AppendAssoc([a[..n]], Words(a[n..]), Words(b));
    }
  }

  lemma AppendAssoc<T>(x: seq<T>, y: seq<T>, z: seq<T>)
    ensures x + (y + z) == (x + y) + z
  {
  }

  /** A non-empty text without whitespace is a single word. */
  lemma WordsOfWord(w: string)
    requires w != "" && forall k :: 0 <= k < |w| ==> !IsSpace(w[k])
    ensures Words(w) == [w]
  {
    assert TokenLen(w) == |w|;
    assert w[..|w|] == w && w[|w|..] == [];
  }

  /** Python's `sep.join(parts)`. */
  function JoinWith(sep: string, parts: seq<string>): string
    decreases |parts|
  {
    if parts == [] then ""
    else if |parts| == 1 then parts[0]
    else parts[0] + sep + JoinWith(sep, parts[1..])
  }

  /** A string is collapsed when its only whitespace is single spaces between non-blank characters. */
  predicate Collapsed(s: string)
  {
    && (s != [] ==> s[0] != ' ' && s[|s| - 1] != ' ')
    && (forall k :: 0 <= k < |s| && IsSpace(s[k]) ==> s[k] == ' ')
    && (forall k :: 0 <= k < |s| - 1 && s[k] == ' ' ==> s[k + 1] != ' ')
  }

  lemma {:induction false} JoinedWordsCollapsed(ws: seq<string>)
    requires forall w :: w in ws ==> w != "" && forall k :: 0 <= k < |w| ==> !IsSpace(w[k])
    ensures Collapsed(JoinWith(" ", ws))
    ensures JoinWith(" ", ws) == "" <==> ws == []
    ensures ws != [] ==> StartsWith(JoinWith(" ", ws), ws[0])
    decreases |ws|
  {
    if |ws| > 1 {
      assert forall w :: w in ws[1..] ==> w in ws;
      JoinedWordsCollapsed(ws[1..]);
      CollapsedCons(ws[0], JoinWith(" ", ws[1..]));
    }
  }

  /** A word, a space and a collapsed non-empty text make a collapsed text. */
  lemma CollapsedCons(w: string, t: string)
    requires w != "" && forall k :: 0 <= k < |w| ==> !IsSpace(w[k])
    requires t != "" && Collapsed(t)
    ensures Collapsed(w + " " + t) && StartsWith(w + " " + t, w)
  {
    var j := w + " " + t;
    assert j[..|w|] == w;
    assert forall k :: 0 <= k < |w| ==> j[k] == w[k];
    assert forall k :: |w| < k < |j| ==> j[k] == t[k - |w| - 1];
    assert j[|j| - 1] == t[|t| - 1];
  }

  /** `" ".join(s.split())`: whitespace runs become one space and the ends are trimmed. */
  function CollapseSpaces(s: string): (r: string)
    ensures Collapsed(r)
    ensures r == "" <==> forall k :: 0 <= k < |s| ==> IsSpace(s[k])
  {
    JoinedWordsCollapsed(Words(s));
    JoinWith(" ", Words(s))
  }

  // --------------------------------------------------------- other splits

  /** Python's `s.split(c)` for a one-character separator: keeps empty pieces. */
  function SplitOn(s: string, c: char): (parts: seq<string>)
    ensures |parts| >= 1
    ensures forall p :: p in parts ==> c !in p
    decreases |s|
  {
    var i := IndexOf(s, c);
    if i == |s| then [s] else [s[..i]] + SplitOn(s[i + 1..], c)
  }

  /** Joining the pieces of a split with the separator gives the string back. */
  lemma {:induction false} JoinSplitOn(s: string, c: char)
    ensures JoinWith([c], SplitOn(s, c)) == s
    decreases |s|
  {
    var i := IndexOf(s, c);
    if i < |s| {
      var head, tail := s[..i], s[i + 1..];
      assert s == head + [c] + tail;
      var rest := SplitOn(tail, c);
      assert SplitOn(s, c) == [head] + rest;
      assert JoinWith([c], [head] + rest) == head + [c] + JoinWith([c], rest) by {
        JoinWithCons([c], head, rest);
      }
      assert JoinWith([c], rest) == tail by {
        JoinSplitOn(tail, c);
      }
    } else {
      assert SplitOn(s, c) == [s];
    }
  }

  lemma JoinWithCons(sep: string, h: string, rest: seq<string>)
    requires rest != []
    ensures JoinWith(sep, [h] + rest) == h + sep + JoinWith(sep, rest)
  {
    assert ([h] + rest)[1..] == rest;
  }

  /** Splitting a join of separator-free pieces gives the pieces back. */
  lemma {:induction false} SplitOnJoin(parts: seq<string>, c: char)
    requires parts != []
    requires forall p :: p in parts ==> c !in p
    ensures SplitOn(JoinWith([c], parts), c) == parts
    decreases |parts|
  {
    var p0 := parts[0];
    assert c !in p0;
    if |parts| > 1 {
      var tail := parts[1..];
      assert parts == [p0] + tail;
      assert forall p :: p in tail ==> p in parts;
      var rest := JoinWith([c], tail);
      assert JoinWith([c], parts) == p0 + [c] + rest;
      SplitOnHead(p0, rest, c);
      SplitOnJoin(tail, c);
    } else {
      assert JoinWith([c], parts) == p0;
    }
  }

  /** A separator-free first piece is split off first. */
  lemma SplitOnHead(p0: string, rest: string, c: char)
    requires c !in p0
    ensures SplitOn(p0 + [c] + rest, c) == [p0] + SplitOn(rest, c)
  {
    var s := p0 + [c] + rest;
    assert s == p0 + ([c] + rest);
    IndexOfAppend(p0, [c] + rest, c);
    assert IndexOf(s, c) == |p0|;
    assert s[..|p0|] == p0;
    assert s[|p0| + 1..] == rest;
  }

  /** No piece of a split holds a character the string does not hold. */
  lemma {:induction false} SplitOnAvoids(s: string, c: char, d: char)
    requires d !in s
    ensures forall p :: p in SplitOn(s, c) ==> d !in p
    decreases |s|
  {
    var i := IndexOf(s, c);
    if i < |s| {
      var head, r := s[..i], s[i + 1..];
      assert SplitOn(s, c) == [head] + SplitOn(r, c);
      assert d !in head by {
        assert forall k :: 0 <= k < i ==> head[k] == s[k];
      }
      assert d !in r by {
        assert forall k :: 0 <= k < |r| ==> r[k] == s[i + 1 + k];
      }
      SplitOnAvoids(r, c, d);
    }
  }

  /** A join holds no character that neither the pieces nor the separator hold. */
  lemma {:induction false} JoinAvoids(sep: string, parts: seq<string>, d: char)
    requires d !in sep
    requires forall p :: p in parts ==> d !in p
    ensures d !in JoinWith(sep, parts)
    decreases |parts|
  {
    if |parts| > 1 {
      JoinAvoids(sep, parts[1..], d);
    }
  }

  /** Python's `str.isdigit` on ASCII: non-empty and only decimal digits. */
  predicate IsDigits(s: string)
  {
    s != [] && forall k :: 0 <= k < |s| ==> IsAsciiDigit(s[k])
  }

  /** Python's `int(s)` for a string of ASCII digits. */
  function DigitsValue(s: string): nat
    requires forall k :: 0 <= k < |s| ==> IsAsciiDigit(s[k])
    decreases |s|
  {
    if s == [] then 0
    else
      assert IsAsciiDigit(s[|s| - 1]);
      10 * DigitsValue(s[..|s| - 1]) + (s[|s| - 1] as int - '0' as int)
  }

  /** Python's `str.replace(pat, rep)` and JavaScript's `replace(/pat/g, rep)`:
      the leftmost non-overlapping occurrences of `pat` are replaced. */
  function ReplaceAll(s: string, pat: string, rep: string): string
    requires pat != ""
    decreases |s|
  {
    if |s| < |pat| then s
    else if s[..|pat|] == pat then rep + ReplaceAll(s[|pat|..], pat, rep)
    else [s[0]] + ReplaceAll(s[1..], pat, rep)
  }

  /** For a one-character pattern the replacement works character by character. */
  lemma {:induction false} ReplaceCharAppend(a: string, b: string, c: char, rep: string)
    ensures ReplaceAll(a + b, [c], rep) == ReplaceAll(a, [c], rep) + ReplaceAll(b, [c], rep)
    decreases |a|
  {
    if a != [] {
      assert (a + b)[1..] == a[1..] + b;
      assert (a + b)[..1] == a[..1];
      ReplaceCharAppend(a[1..], b, c, rep);
    } else {
      assert a + b == b;
    }
  }

  /** A first character that cannot begin the pattern is copied through. */
  lemma ReplaceCons(c: char, s: string, pat: string, rep: string)
    requires pat != "" && c != pat[0]
    ensures ReplaceAll([c] + s, pat, rep) == [c] + ReplaceAll(s, pat, rep)
  {
    assert ([c] + s)[1..] == s;
    if |[c] + s| < |pat| {
      assert ReplaceAll(s, pat, rep) == s;
    } else {
      assert ([c] + s)[..|pat|][0] == c;
    }
  }

  /** A prefix none of whose characters can begin the pattern is copied through. */
  lemma {:induction false} ReplacePrefixFree(p: string, s: string, pat: string, rep: string)
    requires pat != "" && pat[0] !in p
    ensures ReplaceAll(p + s, pat, rep) == p + ReplaceAll(s, pat, rep)
    decreases |p|
  {
    if p != [] {
      assert p + s == [p[0]] + (p[1..] + s);
      assert forall c :: c in p[1..] ==> c in p;
      ReplacePrefixFree(p[1..], s, pat, rep);
      ReplaceCons(p[0], p[1..] + s, pat, rep);
      assert [p[0]] + (p[1..] + ReplaceAll(s, pat, rep)) == p + ReplaceAll(s, pat, rep);
    } else {
      assert p + s == s;
    }
  }
}
