/**
 * The URL utilities of `scraper/utils.py` and the parts of Python's
 * `urllib.parse` they stand on: `urlsplit` (as used by `urlparse`),
 * `urlunsplit` (as used by `geturl`) and `urljoin`, which implements the
 * reference resolution of section 5.2 of RFC 3986 in Python's own way.
 * A URL is the five-component record of `urlsplit`; as in Python, an absent
 * component is the empty string.
 */
module Urls {
  import opened Wrappers
  import opened Text

  datatype Url = Url(scheme: string, netloc: string, path: string, query: string, fragment: string)

  /** Schemes after which `urlunsplit` writes `//` even when the netloc is empty. */
  const UsesNetloc: set<string> := {"", "ftp", "http", "gopher", "nntp", "telnet", "imap", "wais", "file",
    "mms", "https", "shttp", "snews", "prospero", "rtsp", "rtsps", "rtspu", "rsync", "svn", "svn+ssh",
    "sftp", "nfs", "git", "git+ssh", "ws", "wss", "itms-services"}

  /** Schemes for which `urljoin` resolves a reference against the base. */
  const UsesRelative: set<string> := {"", "ftp", "http", "gopher", "nntp", "imap", "wais", "file", "https",
    "shttp", "mms", "prospero", "rtsp", "rtsps", "rtspu", "sftp", "svn", "svn+ssh", "ws", "wss"}

  predicate IsSchemeChar(c: char)
  {
    IsAsciiLetter(c) || IsAsciiDigit(c) || c == '+' || c == '-' || c == '.'
  }

  /** The index of the `:` ending a scheme: the first `:` of `s`, preceded by an ASCII letter
      and then only scheme characters; 0 when `s` has no scheme. */
  function SchemeEnd(s: string): (i: nat)
    ensures i > 0 ==> i < |s| && s[i] == ':' && IsAsciiLetter(s[0])
    ensures i > 0 ==> forall k :: 0 <= k < i ==> IsSchemeChar(s[k])
  {
    var i := IndexOf(s, ':');
    if 0 < i < |s| && IsAsciiLetter(s[0]) && (forall k :: 0 <= k < i ==> IsSchemeChar(s[k])) then i else 0
  }

  predicate IsNetlocDelim(c: char) { c == '/' || c == '?' || c == '#' }

  /** Where the netloc after `//` ends: at the first `/`, `?` or `#`. */
  function NetlocEnd(s: string): (n: nat)
    ensures n <= |s|
    ensures n < |s| ==> IsNetlocDelim(s[n])
    ensures forall k :: 0 <= k < n ==> !IsNetlocDelim(s[k])
    decreases |s|
  {
    if s == [] || IsNetlocDelim(s[0]) then 0 else 1 + NetlocEnd(s[1..])
  }

  /** `urlsplit` rejects a netloc holding one of `[` and `]` without the other. */
  predicate BracketsBalanced(netloc: string)
  {
    ('[' in netloc) == (']' in netloc)
  }

  /** The scheme, lowercased, and what follows its `:`. */
  function SplitScheme(s: string): (string, string)
  {
    var i := SchemeEnd(s);
    if i > 0 then (Lower(s[..i]), s[i + 1..]) else ("", s)
  }

  /** The netloc after a leading `//`, and what follows it. */
  function SplitNetloc(rest: string): (string, string)
  {
    if StartsWith(rest, "//") then
      var n := NetlocEnd(rest[2..]);
      (rest[2..2 + n], rest[2 + n..])
    else ("", rest)
  }

  /** Path, query and fragment: `#` is split off before `?`. */
  function SplitAfter(after: string): (string, string, string)
  {
    var beforeFragment := SplitFirst(after, '#').0;
    (SplitFirst(beforeFragment, '?').0, SplitFirst(beforeFragment, '?').1, SplitFirst(after, '#').1)
  }

  /** `urlsplit`: None stands for the `ValueError` raised on an unbalanced `[` or `]` in the netloc. */
  function Split(s: string): Option<Url>
  {
    var scheme := SplitScheme(s).0;
    var netloc := SplitNetloc(SplitScheme(s).1).0;
    var after := SplitNetloc(SplitScheme(s).1).1;
    if !BracketsBalanced(netloc) then None
    else Some(Url(scheme, netloc, SplitAfter(after).0, SplitAfter(after).1, SplitAfter(after).2))
  }

  /** The part of `urlunsplit` between `scheme:` and `?query`. */
  function Hier(u: Url): string
  {
    if u.netloc != "" then "//" + u.netloc + (if u.path != "" && u.path[0] != '/' then "/" + u.path else u.path)
    else if StartsWith(u.path, "//") then "//" + u.path
    else if u.scheme != "" && u.scheme in UsesNetloc && (u.path == "" || u.path[0] == '/') then "//" + u.path
    else u.path
  }

  function SchemePart(scheme: string): string { if scheme != "" then scheme + ":" else "" }

  function Tail(query: string, fragment: string): string
  {
    (if query != "" then "?" + query else "") + (if fragment != "" then "#" + fragment else "")
  }

  /** `urlunsplit` (and so `geturl`). */
  function Unparse(u: Url): string
  {
    SchemePart(u.scheme) + Hier(u) + Tail(u.query, u.fragment)
  }

  predicate SchemeOk(scheme: string)
  {
    scheme == "" || (IsAsciiLetter(scheme[0]) && forall k :: 0 <= k < |scheme| ==> IsSchemeChar(scheme[k]) && !IsAsciiUpper(scheme[k]))
  }

  /** What `Split` can produce, except for the relation between netloc and path. */
  predicate PreWellFormed(u: Url)
  {
    && SchemeOk(u.scheme)
    && (forall k :: 0 <= k < |u.netloc| ==> !IsNetlocDelim(u.netloc[k]))
    && BracketsBalanced(u.netloc)
    && '?' !in u.path && '#' !in u.path && '#' !in u.query
  }

  /** Exactly the records `Split` produces. */
  predicate WellFormed(u: Url)
  {
    && PreWellFormed(u)
    && (u.netloc != "" ==> u.path == "" || u.path[0] == '/')
    && (u.scheme == "" && u.netloc == "" ==> SchemeEnd(u.path) == 0)
  }

  // ----------------------------------------------------------- split facts

  lemma SchemeEndOfPrefixed(scheme: string, t: string)
    requires scheme != "" && SchemeOk(scheme)
    ensures SchemeEnd(scheme + ":" + t) == |scheme|
  {
    var s := scheme + ":" + t;
    assert ':' !in scheme by {
      forall k | 0 <= k < |scheme| ensures scheme[k] != ':' { assert IsSchemeChar(scheme[k]); }
    }
    IndexOfAppend(scheme, ":" + t, ':');
    assert s == scheme + (":" + t);
    assert forall k :: 0 <= k < |scheme| ==> s[k] == scheme[k];
  }

  /** A trailing `?query` or `#fragment` neither creates nor hides a scheme. */
  lemma SchemeEndOfTail(path: string, tl: string)
    requires '?' !in path && '#' !in path
    requires tl == "" || tl[0] == '?' || tl[0] == '#'
    ensures SchemeEnd(path + tl) == SchemeEnd(path)
  {
    var s := path + tl;
    IndexOfAppend(path, tl, ':');
    assert forall k :: 0 <= k < |path| ==> s[k] == path[k];
    if ':' !in path && tl != "" {
      assert s[|path|] == tl[0];
      var i := IndexOf(s, ':');
      if 0 < i < |s| && IsAsciiLetter(s[0]) {
        assert i > |path| && !IsSchemeChar(s[|path|]);
      }
    }
  }

  lemma {:induction false} NetlocEndOf(a: string, b: string)
    requires forall k :: 0 <= k < |a| ==> !IsNetlocDelim(a[k])
    requires b == "" || IsNetlocDelim(b[0])
    ensures NetlocEnd(a + b) == |a|
    decreases |a|
  {
    if a != [] {
      assert (a + b)[1..] == a[1..] + b;
      NetlocEndOf(a[1..], b);
    } else {
      assert a + b == b;
    }
  }

  /** The string after the scheme and netloc comes apart into path, query and fragment. */
  lemma SplitTail(path: string, query: string, fragment: string)
    requires '?' !in path && '#' !in path && '#' !in query
    ensures SplitFirst(path + Tail(query, fragment), '#') == (path + (if query != "" then "?" + query else ""), fragment)
    ensures SplitFirst(path + (if query != "" then "?" + query else ""), '?') == (path, query)
  {
    var qp := if query != "" then "?" + query else "";
    var fp := if fragment != "" then "#" + fragment else "";
    assert path + Tail(query, fragment) == (path + qp) + fp;
    assert '#' !in path + qp by {
      assert forall d :: d in path + qp ==> d in path || d in qp;
    }
    SplitAtTail(path + qp, fp, '#', fragment);
    SplitAtTail(path, qp, '?', query);
  }

  /** Splitting at `c` a text without `c` followed by `c` and `y` (or by nothing at all). */
  lemma SplitAtTail(x: string, tail: string, c: char, y: string)
    requires c !in x && tail == if y != "" then [c] + y else ""
    ensures SplitFirst(x + tail, c) == (x, y)
  {
    if y != "" {
      assert x + tail == x + [c] + y;
      SplitFirstAt(x, y, c);
    } else {
      assert x + tail == x;
    }
  }

  lemma HierShape(u: Url)
    ensures Hier(u) == u.path || (Hier(u) != "" && Hier(u)[0] == '/')
  {
  }

  lemma SplitSchemeWith(scheme: string, t: string)
    requires scheme != "" && SchemeOk(scheme)
    ensures SplitScheme(scheme + ":" + t) == (scheme, t)
  {
    var s := scheme + ":" + t;
    SchemeEndOfPrefixed(scheme, t);
    assert s[..|scheme|] == scheme;
    assert Lower(scheme) == scheme;
    assert s[|scheme| + 1..] == t;
  }

  lemma NoSchemeBeforeHier(u: Url)
    requires WellFormed(u) && u.scheme == ""
    ensures SchemeEnd(Hier(u) + Tail(u.query, u.fragment)) == 0
  {
    var h := Hier(u);
    var tl := Tail(u.query, u.fragment);
    HierShape(u);
    if h == u.path {
      SchemeEndOfTail(u.path, tl);
    } else {
      assert (h + tl)[0] == '/';
    }
  }

  lemma SplitSchemeOfUnparse(u: Url)
    requires WellFormed(u)
    ensures SplitScheme(Unparse(u)) == (u.scheme, Hier(u) + Tail(u.query, u.fragment))
  {
    var t := Hier(u) + Tail(u.query, u.fragment);
    if u.scheme != "" {
      assert Unparse(u) == u.scheme + ":" + t;
      assert SplitScheme(u.scheme + ":" + t) == (u.scheme, t) by {
        SplitSchemeWith(u.scheme, t);
      }
    } else {
      assert Unparse(u) == t;
      assert SplitScheme(t) == ("", t) by {
        NoSchemeBeforeHier(u);
      }
    }
  }

  lemma SplitNetlocOf(a: string, b: string)
    requires forall k :: 0 <= k < |a| ==> !IsNetlocDelim(a[k])
    requires b == "" || IsNetlocDelim(b[0])
    ensures SplitNetloc("//" + a + b) == (a, b)
  {
    var rest := "//" + a + b;
    NetlocEndOf(a, b);
    assert rest[2..] == a + b;
    assert rest[2..2 + |a|] == a;
    assert rest[2 + |a|..] == b;
  }

  lemma SplitNetlocOfHier(u: Url)
    requires WellFormed(u)
    ensures SplitNetloc(Hier(u) + Tail(u.query, u.fragment)) == (u.netloc, u.path + Tail(u.query, u.fragment))
  {
    var h := Hier(u);
    var tl := Tail(u.query, u.fragment);
    var after := u.path + tl;
    TailStart(u.query, u.fragment);
    if u.netloc != "" {
      assert h == "//" + u.netloc + u.path;
      assert SplitNetloc(h + tl) == (u.netloc, after) by {
        Regroup("//" + u.netloc, u.path, tl);
        DelimStart(u.path, tl);
        SplitNetlocOf(u.netloc, after);
      }
    } else if h != u.path {
      assert h == "//" + u.path;
      assert SplitNetloc(h + tl) == ("", after) by {
        Regroup("//", u.path, tl);
        assert "//" + after == "//" + "" + after;
        DelimStart(u.path, tl);
        SplitNetlocOf("", after);
      }
    } else {
      assert !StartsWith(u.path, "//");
      NoDoubleSlash(u.path, tl);
    }
  }

  lemma Regroup(a: string, b: string, c: string)
    ensures a + b + c == a + (b + c)
  {
  }

  /** What follows the path starts with `?` or `#`, if anything. */
  lemma TailStart(query: string, fragment: string)
    ensures var tl := Tail(query, fragment); tl == "" || tl[0] == '?' || tl[0] == '#'
  {
  }

  lemma DelimStart(path: string, tl: string)
    requires path == "" || path[0] == '/'
    requires tl == "" || tl[0] == '?' || tl[0] == '#'
    ensures var after := path + tl; after == "" || IsNetlocDelim(after[0])
  {
  }

  /** A path that does not start with `//`, followed by a tail starting with `?` or `#`, has
      no netloc. */
  lemma NoDoubleSlash(path: string, tl: string)
    requires !StartsWith(path, "//")
    requires tl == "" || tl[0] == '?' || tl[0] == '#'
    ensures SplitNetloc(path + tl) == ("", path + tl)
  {
    var rest := path + tl;
    assert !StartsWith(rest, "//") by {
      if |path| >= 2 { assert rest[..2] == path[..2]; }
      else if |path| == 1 { assert tl != "" ==> rest[1] == tl[0]; }
      else { assert tl != "" ==> rest[0] == tl[0]; }
    }
  }

  /** `urlunsplit` is a right inverse of `urlsplit` on well-formed records. */
  lemma RoundTrip(u: Url)
    requires WellFormed(u)
    ensures Split(Unparse(u)) == Some(u)
  {
    SplitSchemeOfUnparse(u);
    SplitNetlocOfHier(u);
    SplitTail(u.path, u.query, u.fragment);
  }

  /** What follows the netloc is the path, then the `?query`/`#fragment` part. */
  lemma AfterNetloc(after: string) returns (tl: string)
    ensures after == SplitAfter(after).0 + tl
    ensures '?' !in SplitAfter(after).0 && '#' !in SplitAfter(after).0 && '#' !in SplitAfter(after).1
    ensures tl == "" || tl[0] == '?' || tl[0] == '#'
  {
    var r1 := SplitFirst(after, '#');
    var r2 := SplitFirst(r1.0, '?');
    var qp := (if '?' in r1.0 then ['?'] else []) + r2.1;
    var fp := (if '#' in after then ['#'] else []) + r1.1;
    SplitFirstRejoin(after, '#');
    SplitFirstRejoin(r1.0, '?');
    ConcatAssoc(after, r1.0, r2.0, qp, fp);
    tl := qp + fp;
  }

  lemma ConcatAssoc(s: string, a: string, b: string, c: string, d: string)
    requires a == b + c && s == a + d
    ensures s == b + (c + d)
  {
  }

  lemma SplitSchemeOk(s: string)
    ensures SchemeOk(SplitScheme(s).0)
    ensures SplitScheme(s).0 == "" ==> SplitScheme(s).1 == s && SchemeEnd(s) == 0
  {
    var i := SchemeEnd(s);
    if i > 0 {
      var sc := Lower(s[..i]);
      forall k | 0 <= k < i ensures IsSchemeChar(sc[k]) && !IsAsciiUpper(sc[k]) {
        assert IsSchemeChar(s[k]);
      }
      assert IsAsciiLetter(sc[0]) by { assert IsAsciiLetter(s[0]); }
    }
  }

  lemma SplitNetlocShape(rest: string)
    ensures var (netloc, after) := SplitNetloc(rest);
      && (forall k :: 0 <= k < |netloc| ==> !IsNetlocDelim(netloc[k]))
      && (after == "" || IsNetlocDelim(after[0]) || after == rest)
      && (after == rest ==> netloc == "" && !StartsWith(rest, "//"))
  {
  }

  /** Every record `urlsplit` returns is well formed. */
  lemma SplitWellFormed(s: string)
    requires Split(s).Some?
    ensures WellFormed(Split(s).value)
  {
    var u := Split(s).value;
    var (scheme, rest) := SplitScheme(s);
    var (netloc, after) := SplitNetloc(rest);
    SplitSchemeOk(s);
    SplitNetlocShape(rest);
    var tl := AfterNetloc(after);
    assert after == u.path + tl;
    assert u.path != "" ==> after[0] == u.path[0];
    if u.scheme == "" && u.netloc == "" {
      SchemeEndOfTail(u.path, tl);
    }
  }

  // -------------------------------------------------------------- joining

  /** Drops the empty strings: Python's `filter(None, parts)`. */
  function NonEmpty(parts: seq<string>): (r: seq<string>)
    ensures forall p :: p in r ==> p in parts && p != ""
    decreases |parts|
  {
    if parts == [] then [] else (if parts[0] == "" then [] else [parts[0]]) + NonEmpty(parts[1..])
  }

  /** `segments[1:-1] = filter(None, segments[1:-1])`. */
  function DropInnerEmpty(segs: seq<string>): (r: seq<string>)
    ensures |segs| >= 1 ==> |r| >= 1 && r[|r| - 1] == segs[|segs| - 1]
    ensures forall p :: p in r ==> p in segs
  {
    if |segs| < 2 then segs else [segs[0]] + NonEmpty(segs[1..|segs| - 1]) + [segs[|segs| - 1]]
  }

  predicate IsDotSegment(seg: string) { seg == "." || seg == ".." }

  /** `urljoin`'s resolution loop: `..` pops the last kept segment, `.` is skipped. */
  function ResolveSegments(kept: seq<string>, segs: seq<string>): (r: seq<string>)
    ensures forall p :: p in r ==> p in kept || p in segs
    ensures (forall p :: p in kept ==> !IsDotSegment(p)) ==> forall p :: p in r ==> !IsDotSegment(p)
    decreases |segs|
  {
    if segs == [] then kept
    else
      var seg := segs[0];
      var next := if seg == ".." then (if kept == [] then [] else kept[..|kept| - 1])
                  else if seg == "." then kept
                  else kept + [seg];
      ResolveSegments(next, segs[1..])
  }

  /** The segments `urljoin` resolves: those of an absolute path, or the base path's directory
      followed by the relative path, with inner empty segments dropped. */
  function MergeSegments(basePath: string, path: string): (segs: seq<string>)
    ensures segs != []
    ensures forall p :: p in segs ==> p in SplitOn(basePath, '/') || p in SplitOn(path, '/')
  {
    var raw := SplitOn(basePath, '/');
    var baseParts := if raw[|raw| - 1] != "" then raw[..|raw| - 1] else raw;
    assert forall p :: p in baseParts ==> p in raw;
    if StartsWith(path, "/") then SplitOn(path, '/')
    else DropInnerEmpty(baseParts + SplitOn(path, '/'))
  }

  /** The resolved segments, with a final `/` kept after a trailing `.` or `..`. */
  function ResolvedSegments(segs: seq<string>): seq<string>
    requires segs != []
  {
    var resolved := ResolveSegments([], segs);
    if IsDotSegment(segs[|segs| - 1]) then resolved + [""] else resolved
  }

  /** The path `urljoin` builds from a base path and a non-empty relative path. */
  function MergePath(basePath: string, path: string): string
  {
    var joined := JoinWith("/", ResolvedSegments(MergeSegments(basePath, path)));
    if joined == "" then "/" else joined
  }

  /** The record `urljoin` assembles for a reference without a netloc of its own: the base's
      netloc, and the base's path and query when the reference has no path. */
  function Resolve(b: Url, r: Url): Url
  {
    var r := if r.scheme in UsesNetloc then r.(netloc := b.netloc) else r;
    if r.path == "" then r.(path := b.path, query := if r.query == "" then b.query else r.query)
    else r.(path := MergePath(b.path, r.path))
  }

  /** `urljoin` on the split base `b` and split reference `r0`; `ref` is the reference as written. */
  function JoinParsed(b: Url, r0: Url, ref: string): string
  {
    var r := if r0.scheme == "" then r0.(scheme := b.scheme) else r0;
    if r.scheme != b.scheme || r.scheme !in UsesRelative then ref
    else if r.scheme in UsesNetloc && r.netloc != "" then Unparse(r)
    else Unparse(Resolve(b, r))
  }

  /** `urljoin(base, ref)`; None stands for the `ValueError` either split may raise. */
  function Join(base: string, ref: string): Option<string>
  {
    if base == "" then Some(ref)
    else if ref == "" then Some(base)
    else if Split(base).None? || Split(ref).None? then None
    else Some(JoinParsed(Split(base).value, Split(ref).value, ref))
  }

  // ------------------------------------------------------- merged paths

  lemma ResolvedSegmentsClean(basePath: string, path: string)
    ensures forall p :: p in ResolvedSegments(MergeSegments(basePath, path)) ==> '/' !in p && !IsDotSegment(p)
  {
    var segs := MergeSegments(basePath, path);
    assert forall p :: p in segs ==> '/' !in p;
    var resolved := ResolveSegments([], segs);
    assert forall p :: p in resolved ==> '/' !in p && !IsDotSegment(p);
  }

  /** `urljoin` leaves no `.` or `..` segment in a path it merges. */
  lemma MergePathDotFree(basePath: string, path: string)
    ensures forall seg :: seg in SplitOn(MergePath(basePath, path), '/') ==> !IsDotSegment(seg)
  {
    var resolved := ResolvedSegments(MergeSegments(basePath, path));
    var joined := JoinWith("/", resolved);
    if joined == "" {
      assert MergePath(basePath, path) == "/";
      assert SplitOn("/", '/') == ["", ""] by {
        assert IndexOf("/", '/') == 0;
        assert "/"[1..] == "";
      }
    } else {
      assert MergePath(basePath, path) == joined;
      ResolvedSegmentsClean(basePath, path);
      SplitOnJoin(resolved, '/');
    }
  }

  /** A character missing from both paths (other than `/`) is missing from the merge. */
  lemma MergePathAvoids(basePath: string, path: string, d: char)
    requires d != '/' && d !in basePath && d !in path
    ensures d !in MergePath(basePath, path)
  {
    SplitOnAvoids(basePath, '/', d);
    SplitOnAvoids(path, '/', d);
    JoinAvoids("/", ResolvedSegments(MergeSegments(basePath, path)), d);
  }

  // ---------------------------------------------------------- utils.py

  /** The ASCII-case-sensitive reading of "starts with `#` or `javascript:`". */
  predicate IsSkippedLink(l: string)
  {
    StartsWith(l, "#") || StartsWith(l, "javascript:")
  }

  /** `normalize_url(base_url, link)`: None for an empty link, a fragment-only or `javascript:`
      link, or one that makes `urljoin`/`urlparse` raise; otherwise the joined URL without
      its fragment. */
  function NormalizeUrl(base: string, link: string): (r: Option<string>)
    ensures link == "" ==> r == None
    ensures IsSkippedLink(Strip(link)) ==> r == None
  {
    if link == "" then None
    else
      var l := Strip(link);
      if IsSkippedLink(l) then None
      else match Join(base, l)
        case None => None
        case Some(a) => DropFragment(a)
  }

  /** `urlparse(a)._replace(fragment='').geturl()`. */
  function DropFragment(a: string): Option<string>
  {
    match Split(a)
    case None => None
    case Some(u) => Some(Unparse(u.(fragment := "")))
  }

  /** `is_valid_url(url)`: parses, has scheme http or https, and has a netloc. */
  predicate IsValidUrl(s: string)
  {
    match Split(s)
    case None => false
    case Some(u) => u.scheme != "" && u.netloc != "" && (u.scheme == "http" || u.scheme == "https")
  }

  /** `get_domain(url)`: the netloc, or "" when parsing raises. */
  function GetDomain(s: string): (d: string)
    ensures forall k :: 0 <= k < |d| ==> !IsNetlocDelim(d[k])
  {
    SplitNetlocShape(SplitScheme(s).1);
    match Split(s)
    case None => ""
    case Some(u) => u.netloc
  }

  // --------------------------------------------------- properties of them

  /** A record whose only defect is a netloc followed by a path without `/`. */
  function Canon(u: Url): Url
  {
    if u.netloc != "" && u.path != "" && u.path[0] != '/' then u.(path := "/" + u.path) else u
  }

  /** `urlunsplit` inserts the missing `/`, so splitting its output gives the repaired record. */
  lemma SplitUnparseCanon(u: Url)
    requires PreWellFormed(u) && u.netloc != ""
    ensures WellFormed(Canon(u)) && Unparse(Canon(u)) == Unparse(u)
    ensures Split(Unparse(u)) == Some(Canon(u))
  {
    var c := Canon(u);
    assert '?' !in c.path && '#' !in c.path;
    assert Hier(c) == Hier(u);
    RoundTrip(c);
  }

  lemma SchemeChange(u: Url, scheme: string)
    requires WellFormed(u) && u.netloc != "" && SchemeOk(scheme)
    ensures WellFormed(u.(scheme := scheme))
  {
  }

  lemma ValidBase(base: string)
    requires IsValidUrl(base)
    ensures base != "" && WellFormed(Split(base).value)
    ensures Split(base).value.scheme in UsesRelative && Split(base).value.scheme in UsesNetloc
  {
    SplitWellFormed(base);
  }

  /** A URL normalized against a valid base re-splits into a record with a scheme and no
      fragment that has a netloc or a scheme other than the base's. */
  predicate Settled(b: Url, v: Url)
  {
    WellFormed(v) && v.fragment == "" && v.scheme != "" && (v.netloc != "" || v.scheme != b.scheme)
  }

  lemma NormalizeSettled(base: string, link: string) returns (v: Url)
    requires IsValidUrl(base) && NormalizeUrl(base, link).Some?
    ensures Split(NormalizeUrl(base, link).value) == Some(v) && Settled(Split(base).value, v)
    ensures Unparse(v) == NormalizeUrl(base, link).value
  {
    ValidBase(base);
    var b := Split(base).value;
    var l := Strip(link);
    var a := Join(base, l).value;
    var u: Url;
    if l == "" {
      assert a == base;
      u := b;
    } else {
      SplitWellFormed(l);
      u := JoinParsedSplits(b, Split(l).value, l);
      assert a == JoinParsed(b, Split(l).value, l);
    }
    v := DropFragmentOf(a, u);
  }

  /** What `JoinParsed` returns against a valid base re-splits into a record with a scheme,
      and a netloc unless its scheme differs from the base's. */
  lemma JoinParsedSplits(b: Url, r0: Url, ref: string) returns (u: Url)
    requires WellFormed(b) && b.scheme != "" && b.netloc != "" && b.scheme in UsesRelative
    requires WellFormed(r0) && Split(ref) == Some(r0)
    ensures Split(JoinParsed(b, r0, ref)) == Some(u) && WellFormed(u)
    ensures u.scheme != "" && (u.netloc != "" || u.scheme != b.scheme)
  {
    var r := if r0.scheme == "" then r0.(scheme := b.scheme) else r0;
    if r.scheme != b.scheme || r.scheme !in UsesRelative {
      u := r0;
    } else if r.scheme in UsesNetloc && r.netloc != "" {
      SchemeChange(r0, r.scheme);
      RoundTrip(r);
      u := r;
    } else {
      assert UsesRelative <= UsesNetloc;
      u := ResolveSplits(b, r);
    }
  }

  lemma ResolveSplits(b: Url, r: Url) returns (u: Url)
    requires WellFormed(b) && b.netloc != "" && r.scheme in UsesNetloc && PreWellFormed(r.(netloc := b.netloc))
    ensures Split(Unparse(Resolve(b, r))) == Some(u) && WellFormed(u)
    ensures u.scheme == r.scheme && u.netloc == b.netloc
  {
    var r1 := r.(netloc := b.netloc);
    if r1.path != "" {
      MergePathAvoids(b.path, r1.path, '?');
      MergePathAvoids(b.path, r1.path, '#');
    }
    SplitUnparseCanon(Resolve(b, r));
    u := Canon(Resolve(b, r));
  }

  /** `DropFragment` on a URL that splits into a well-formed record. */
  lemma DropFragmentOf(a: string, u: Url) returns (v: Url)
    requires Split(a) == Some(u) && WellFormed(u)
    ensures v == u.(fragment := "")
    ensures DropFragment(a) == Some(Unparse(v)) && Split(Unparse(v)) == Some(v)
  {
    v := u.(fragment := "");
    RoundTrip(v);
  }

  /** Any URL `normalize_url` returns has an empty fragment. */
  lemma NormalizeDropsFragment(base: string, link: string)
    requires NormalizeUrl(base, link).Some?
    ensures Split(NormalizeUrl(base, link).value).Some?
    ensures Split(NormalizeUrl(base, link).value).value.fragment == ""
  {
    var l := Strip(link);
    var a := Join(base, l).value;
    SplitWellFormed(a);
    RoundTrip(Split(a).value.(fragment := ""));
  }

  /** A whitespace-only link passes the emptiness test and resolves to the base without
      its fragment. */
  lemma NormalizeBlankLink(base: string, link: string)
    requires link != "" && forall k :: 0 <= k < |link| ==> IsSpace(link[k])
    requires Split(base).Some?
    ensures NormalizeUrl(base, link) == Some(Unparse(Split(base).value.(fragment := "")))
  {
    assert Strip(link) == "";
    assert !IsSkippedLink("");
  }

  /** An absolute reference (a scheme and a netloc) normalizes the same way against any
      base that parses. */
  lemma NormalizeAbsoluteIgnoresBase(base1: string, base2: string, link: string)
    requires Split(Strip(link)).Some?
    requires Split(Strip(link)).value.scheme != "" && Split(Strip(link)).value.netloc != ""
    requires base1 == "" || Split(base1).Some?
    requires base2 == "" || Split(base2).Some?
    ensures NormalizeUrl(base1, link) == NormalizeUrl(base2, link)
    ensures NormalizeUrl(base1, link) == NormalizeUrl("", link)
  {
    NormalizeAbsolute(base1, link);
    NormalizeAbsolute(base2, link);
    NormalizeAbsolute("", link);
  }

  lemma NormalizeAbsolute(base: string, link: string)
    requires Split(Strip(link)).Some?
    requires Split(Strip(link)).value.scheme != "" && Split(Strip(link)).value.netloc != ""
    requires base == "" || Split(base).Some?
    ensures NormalizeUrl(base, link) == if link == "" || IsSkippedLink(Strip(link)) then None else DropFragment(Strip(link))
  {
    var l := Strip(link);
    if link != "" && !IsSkippedLink(l) {
      JoinAbsolute(base, l);
      var a := Join(base, l).value;
      NormalizeVia(base, link, a);
      DropFragmentSame(a, l);
    }
  }

  lemma DropFragmentSame(a: string, l: string)
    requires Split(a) == Split(l)
    ensures DropFragment(a) == DropFragment(l)
  {
  }

  /** Joining an absolute reference gives it back, up to what `Split` ignores. */
  lemma JoinAbsolute(base: string, l: string)
    requires Split(l).Some? && Split(l).value.scheme != "" && Split(l).value.netloc != ""
    requires base == "" || Split(base).Some?
    ensures Join(base, l).Some? && Split(Join(base, l).value) == Split(l)
  {
    SplitNonEmpty(l);
    if base != "" {
      assert Join(base, l) == Some(JoinParsed(Split(base).value, Split(l).value, l));
      JoinParsedAbsolute(Split(base).value, Split(l).value, l);
    }
  }

  lemma SplitNonEmpty(l: string)
    requires Split(l).Some? && Split(l).value.netloc != ""
    ensures l != ""
  {
  }

  lemma JoinParsedAbsolute(b: Url, r0: Url, l: string)
    requires Split(l) == Some(r0) && r0.scheme != "" && r0.netloc != ""
    ensures Split(JoinParsed(b, r0, l)) == Some(r0)
  {
    if JoinParsed(b, r0, l) != l {
      assert WellFormed(r0) by {
        SplitWellFormed(l);
      }
      assert Split(Unparse(r0)) == Some(r0) by {
        RoundTrip(r0);
      }
    }
  }

  /** Normalizing the result of `normalize_url` against the same valid base changes nothing,
      provided the result has no surrounding whitespace and does not start with the
      lowercase `javascript:`. */
  lemma NormalizeIdempotent(base: string, link: string)
    requires IsValidUrl(base) && NormalizeUrl(base, link).Some?
    requires var t := NormalizeUrl(base, link).value; Strip(t) == t && !StartsWith(t, "javascript:")
    ensures NormalizeUrl(base, NormalizeUrl(base, link).value) == NormalizeUrl(base, link)
  {
    var t := NormalizeUrl(base, link).value;
    var v := NormalizeSettled(base, link);
    ValidBase(base);
    NormalizeSettledFixed(base, t, v);
  }

  lemma NormalizeSettledFixed(base: string, t: string, v: Url)
    requires base != "" && Split(base).Some? && Split(base).value.scheme in UsesNetloc
    requires Split(t) == Some(v) && Settled(Split(base).value, v) && Unparse(v) == t
    requires Strip(t) == t && !StartsWith(t, "javascript:")
    ensures NormalizeUrl(base, t) == Some(t)
  {
    PrintedSchemeFirst(v);
    NotSkippedByLetter(t);
    JoinSettled(base, t, v);
    DropFragmentSplit(t, v);
    assert v.(fragment := "") == v;
    NormalizeVia(base, t, t);
  }

  lemma NotSkippedByLetter(l: string)
    requires l != "" && IsAsciiLetter(l[0]) && !StartsWith(l, "javascript:")
    ensures !IsSkippedLink(l)
  {
  }

  lemma PrintedSchemeFirst(v: Url)
    requires v.scheme != ""
    ensures Unparse(v) != "" && Unparse(v)[0] == v.scheme[0]
  {
    assert Unparse(v) == v.scheme + (":" + Hier(v) + Tail(v.query, v.fragment));
  }

  lemma JoinSettled(base: string, t: string, v: Url)
    requires base != "" && t != "" && Split(base).Some? && Split(t) == Some(v) && Unparse(v) == t
    requires Split(base).value.scheme in UsesNetloc && Settled(Split(base).value, v)
    ensures Join(base, t) == Some(t)
  {
    var b := Split(base).value;
    assert Join(base, t) == Some(JoinParsed(b, v, t));
    JoinParsedSettled(b, v, t);
  }

  /** A reference with a scheme that has a netloc, or a scheme of its own, is taken as it
      stands. */
  lemma JoinParsedSettled(b: Url, v: Url, t: string)
    requires v.scheme != "" && (v.netloc != "" || v.scheme != b.scheme)
    requires b.scheme in UsesNetloc && Unparse(v) == t
    ensures JoinParsed(b, v, t) == t
  {
  }

  /** The check on `javascript:` is case sensitive while the scheme is lowercased, so a
      `JavaScript:` link with a plain path survives normalization against any valid base,
      as a lowercase `javascript:` link that the check rejects. */
  lemma NormalizeMixedCaseJavascript(base: string, path: string)
    requires IsValidUrl(base)
    requires '?' !in path && '#' !in path && !StartsWith(path, "//")
    requires path == "" || !IsSpace(path[|path| - 1])
    ensures NormalizeUrl(base, "JavaScript:" + path) == Some("javascript:" + path)
    ensures IsSkippedLink("javascript:" + path)
  {
    ValidBase(base);
    JavascriptNoNetloc();
    MixedCaseKept(path);
    SplitMixedCase(path);
    UnparseJavascript(path);
    NormalizeForeign(base, "JavaScript:" + path, Url("javascript", "", path, "", ""));
    JavascriptSkipped(path);
  }

  /** A `JavaScript:` link is its own strip and passes the skip check. */
  lemma MixedCaseKept(path: string)
    requires path == "" || !IsSpace(path[|path| - 1])
    ensures var link := "JavaScript:" + path; link != "" && Strip(link) == link && !IsSkippedLink(link)
  {
    var link := "JavaScript:" + path;
    assert link[0] == 'J' && link[|link| - 1] == if path == "" then ':' else path[|path| - 1];
    KeptByFirst(link);
  }

  /** A link with no surrounding whitespace whose first character is neither `#` nor `j` is
      its own strip and passes the skip check. */
  lemma KeptByFirst(link: string)
    requires link != "" && !IsSpace(link[0]) && !IsSpace(link[|link| - 1]) && link[0] != '#' && link[0] != 'j'
    ensures Strip(link) == link && !IsSkippedLink(link)
  {
    StripUnchanged(link);
    NotSkippedByFirst(link);
  }

  lemma JavascriptSkipped(path: string)
    ensures IsSkippedLink("javascript:" + path)
  {
    assert ("javascript:" + path)[..11] == "javascript:";
  }

  lemma SplitMixedCase(path: string)
    requires '?' !in path && '#' !in path && !StartsWith(path, "//")
    ensures Split("JavaScript:" + path) == Some(Url("javascript", "", path, "", ""))
  {
    var link := "JavaScript:" + path;
    assert link[..10] == "JavaScript" && link[10] == ':' && link[11..] == path;
    assert SchemeEnd(link) == 10 by {
      assert forall k :: 0 <= k < 10 ==> link[k] != ':' && IsSchemeChar(link[k]);
      IndexOfFirst(link, ':', 10);
      assert IsAsciiLetter(link[0]);
      SchemeEndAt(link, 10);
    }
    assert SplitScheme(link) == ("javascript", path) by {
      MixedCaseLower();
    }
    SplitSchemeOnly(link, "javascript", path);
  }

  /** A link that parses with a scheme other than the base's is taken as it stands, without
      its fragment. */
  lemma NormalizeForeign(base: string, link: string, u: Url)
    requires base != "" && Split(base).Some?
    requires link != "" && Strip(link) == link && !IsSkippedLink(link)
    requires Split(link) == Some(u) && u.scheme != "" && u.scheme != Split(base).value.scheme
    ensures NormalizeUrl(base, link) == Some(Unparse(u.(fragment := "")))
  {
    JoinForeign(base, link);
    DropFragmentSplit(link, u);
    NormalizeVia(base, link, link);
  }

  lemma NotSkippedByFirst(l: string)
    requires l != "" && l[0] != '#' && l[0] != 'j'
    ensures !IsSkippedLink(l)
  {
    assert "javascript:"[0] == 'j';
  }

  lemma NormalizeVia(base: string, link: string, a: string)
    requires link != "" && !IsSkippedLink(Strip(link)) && Join(base, Strip(link)) == Some(a)
    ensures NormalizeUrl(base, link) == DropFragment(a)
  {
  }

  lemma JoinForeign(base: string, l: string)
    requires base != "" && l != "" && Split(base).Some? && Split(l).Some?
    requires Split(l).value.scheme != "" && Split(l).value.scheme != Split(base).value.scheme
    ensures Join(base, l) == Some(l)
  {
  }

  lemma DropFragmentSplit(a: string, u: Url)
    requires Split(a) == Some(u)
    ensures DropFragment(a) == Some(Unparse(u.(fragment := "")))
  {
  }

  /** A URL with a scheme and nothing after it but a plain path. */
  lemma SplitSchemeOnly(s: string, scheme: string, rest: string)
    requires SplitScheme(s) == (scheme, rest) && !StartsWith(rest, "//") && '?' !in rest && '#' !in rest
    ensures Split(s) == Some(Url(scheme, "", rest, "", ""))
  {
    SplitTail(rest, "", "");
    assert rest + Tail("", "") == rest;
  }

  lemma SchemeEndAt(s: string, i: nat)
    requires IndexOf(s, ':') == i && 0 < i < |s| && IsAsciiLetter(s[0])
    requires forall k :: 0 <= k < i ==> IsSchemeChar(s[k])
    ensures SchemeEnd(s) == i
  {
  }

  lemma JavascriptNoNetloc()
    ensures "javascript" !in UsesNetloc
  {
    assert forall x :: x in UsesNetloc ==> x == "" || x[0] != 'j';
  }

  lemma UnparseJavascript(path: string)
    requires !StartsWith(path, "//")
    ensures Unparse(Url("javascript", "", path, "", "")) == "javascript:" + path
  {
    JavascriptNoNetloc();
    UnparseOpaquePath("javascript", path);
    assert "javascript" + ":" == "javascript:";
  }

  /** A record with a scheme that takes no netloc, and a path only, prints as `scheme:path`. */
  lemma UnparseOpaquePath(scheme: string, path: string)
    requires scheme != "" && scheme !in UsesNetloc && !StartsWith(path, "//")
    ensures Unparse(Url(scheme, "", path, "", "")) == scheme + ":" + path
  {
    assert Hier(Url(scheme, "", path, "", "")) == path;
  }

  lemma MixedCaseLower()
    ensures Lower("JavaScript") == "javascript"
  {
    var l := Lower("JavaScript");
    assert l[0] == 'j' && l[4] == 's';
  }

  /** A valid URL begins, up to ASCII case, with `http://` or `https://`. */
  lemma ValidUrlPrefix(s: string)
    requires IsValidUrl(s)
    ensures StartsWith(Lower(s), "http://") || StartsWith(Lower(s), "https://")
  {
    var i := ValidUrlShape(s);
    LowerPrefix(s, i);
  }

  lemma ValidUrlShape(s: string) returns (i: nat)
    requires IsValidUrl(s)
    ensures 0 < i && i + 3 <= |s| && s[i] == ':' && s[i + 1] == '/' && s[i + 2] == '/'
    ensures Lower(s[..i]) == "http" || Lower(s[..i]) == "https"
  {
    i := ValidUrlParts(s);
    SlashesAfter(s, i);
  }

  lemma ValidUrlParts(s: string) returns (i: nat)
    requires IsValidUrl(s)
    ensures i == SchemeEnd(s) && i > 0 && StartsWith(s[i + 1..], "//")
    ensures Lower(s[..i]) == "http" || Lower(s[..i]) == "https"
  {
    var u := Split(s).value;
    assert u.scheme == SplitScheme(s).0 && u.netloc == SplitNetloc(SplitScheme(s).1).0;
    NetlocMeansSlashes(SplitScheme(s).1);
    i := SchemeEnd(s);
  }

  lemma NetlocMeansSlashes(rest: string)
    ensures SplitNetloc(rest).0 != "" ==> StartsWith(rest, "//")
  {
  }

  lemma SlashesAfter(s: string, i: nat)
    requires i < |s| && StartsWith(s[i + 1..], "//")
    ensures i + 3 <= |s| && s[i + 1] == '/' && s[i + 2] == '/'
  {
    var t := s[i + 1..];
    assert t[..2] == "//";
    assert t[0] == '/' && t[1] == '/';
  }

  lemma LowerPrefix(s: string, i: nat)
    requires 0 < i && i + 3 <= |s| && s[i] == ':' && s[i + 1] == '/' && s[i + 2] == '/'
    requires Lower(s[..i]) == "http" || Lower(s[..i]) == "https"
    ensures StartsWith(Lower(s), "http://") || StartsWith(Lower(s), "https://")
  {
    var low := Lower(s);
    var want := Lower(s[..i]) + "://";
    forall k | 0 <= k < i + 3 ensures low[k] == want[k] {
      if k < i { assert want[k] == Lower(s[..i])[k]; }
    }
    assert low[..i + 3] == want;
    if Lower(s[..i]) == "http" {
      assert want == "http://";
    } else {
      assert want == "https://";
    }
  }

  /** Every well-formed http or https record with a netloc prints as a valid URL. */
  lemma UnparseValid(u: Url)
    requires WellFormed(u) && u.netloc != "" && (u.scheme == "http" || u.scheme == "https")
    ensures IsValidUrl(Unparse(u))
  {
    RoundTrip(u);
  }

  /** The domain of a printed record is its netloc. */
  lemma GetDomainOfUnparse(u: Url)
    requires WellFormed(u)
    ensures GetDomain(Unparse(u)) == u.netloc
  {
    RoundTrip(u);
  }

  /** A reference with no scheme that does not start with `//` has no domain. */
  lemma GetDomainRelative(s: string)
    requires SchemeEnd(s) == 0 && !StartsWith(s, "//")
    ensures GetDomain(s) == ""
  {
    assert SplitScheme(s) == ("", s);
  }

  /** A valid URL has a domain. */
  lemma ValidHasDomain(s: string)
    requires IsValidUrl(s)
    ensures GetDomain(s) != ""
  {
  }

  /** A valid URL begins with `h` or `H`. */
  lemma ValidUrlFirst(s: string)
    requires IsValidUrl(s)
    ensures s != "" && (s[0] == 'h' || s[0] == 'H')
  {
    var i := ValidUrlShape(s);
    var p := s[..i];
    assert Lower(p)[0] == 'h';
    assert Lower(p)[0] == LowerChar(p[0]);
  }

  /** A URL `scheme:rest` whose `rest` does not start with `//` has no domain. */
  lemma SchemeNoNetloc(s: string, scheme: string)
    requires scheme != "" && IsAsciiLetter(scheme[0]) && forall k :: 0 <= k < |scheme| ==> IsSchemeChar(scheme[k])
    requires StartsWith(s, scheme + ":") && !StartsWith(s[|scheme| + 1..], "//")
    ensures GetDomain(s) == ""
  {
    var i := |scheme|;
    assert forall k :: 0 <= k < i ==> s[k] == scheme[k];
    assert s[i] == (scheme + ":")[i] == ':';
    IndexOfFirst(s, ':', i);
    SchemeEndAt(s, i);
    assert SplitScheme(s).1 == s[i + 1..];
  }
}
