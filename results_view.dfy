/**
 * The data logic of the results page script: the HTML escaping of every text it shows, the
 * insight badges of a result card, the preview link and image selections, and the
 * filter-and-sort of the toolbar. A result is the `PageData` the crawl returns; a JSON key
 * that may be absent is an `Option`, and JavaScript's `x || []` reads None as empty.
 */
module ResultsView {
  import opened Wrappers
  import opened Text
  import Sorting
  import Filters
  import Crawler

  type PageData = Crawler.PageData

  /** `(arr || []).length`, and `getCount` of the toolbar sort. */
  function Count<T>(o: Option<seq<T>>): nat
  {
    if o.Some? then |o.value| else 0
  }

  function Items(o: Option<seq<string>>): seq<string>
  {
    if o.Some? then o.value else []
  }

  /** `x || ''` for a text field. */
  function TextOr(o: Option<string>): string
  {
    if o.Some? then o.value else ""
  }

  /** `Array.prototype.filter`. */
  function Where<T(!new)>(xs: seq<T>, keep: T -> bool): (r: seq<T>)
    ensures |r| <= |xs|
    ensures forall x :: x in r <==> x in xs && keep(x)
    decreases |xs|
  {
    if xs == [] then []
    else (if keep(xs[0]) then [xs[0]] else []) + Where(xs[1..], keep)
  }

  /** `Array.prototype.slice(0, n)`. */
  function Take<T>(xs: seq<T>, n: nat): (r: seq<T>)
    ensures |r| == if |xs| < n then |xs| else n
    ensures forall i :: 0 <= i < |r| ==> r[i] == xs[i]
  {
    if |xs| <= n then xs else xs[..n]
  }

  // ------------------------------------------------------------ escapeHtml

  /** The entity each of the five special characters becomes. */
  function EscapeChar(c: char): string
  {
    match c
    case '&' => "&amp;"
    case '<' => "&lt;"
    case '>' => "&gt;"
    case '"' => "&quot;"
    case '\'' => "&#039;"
    case _ => [c]
  }

  predicate IsSpecial(c: char)
  {
    c == '&' || c == '<' || c == '>' || c == '"' || c == '\''
  }

  /** The reference serialiser: every character escaped on its own. */
  function EscapeChars(s: string): string
    decreases |s|
  {
    if s == [] then [] else EscapeChar(s[0]) + EscapeChars(s[1..])
  }

  /** The five global replacements, ampersand first. */
  function Chain(s: string): string
  {
    ReplaceAll(ReplaceAll(ReplaceAll(ReplaceAll(ReplaceAll(s, "&", "&amp;"), "<", "&lt;"), ">", "&gt;"),
      "\"", "&quot;"), "'", "&#039;")
  }

  /** `escapeHtml`: '' for a missing or empty text, else the replacement chain. */
  function EscapeHtml(text: Option<string>): (r: string)
    ensures text.None? ==> r == ""
    ensures text.Some? ==> r == EscapeChars(text.value)
  {
    if text.None? || text.value == "" then ""
    else
      ChainIsEscapeChars(text.value);
      Chain(text.value)
  }

  lemma ReplaceAbsent(p: string, c: char, rep: string)
    requires c !in p
    ensures ReplaceAll(p, [c], rep) == p
  {
    ReplacePrefixFree(p, "", [c], rep);
    assert p + "" == p;
  }

  lemma ReplaceHit(c: char, rep: string)
    ensures ReplaceAll([c], [c], rep) == rep
  {
    assert [c][..1] == [c];
    assert ReplaceAll([c][1..], [c], rep) == "";
  }

  /** The chain maps a single character to its entity. */
  lemma ChainChar(c: char)
    ensures Chain([c]) == EscapeChar(c)
  {
    var e1 := if c == '&' then "&amp;" else [c];
    assert ReplaceAll([c], "&", "&amp;") == e1 by {
      if c == '&' { ReplaceHit(c, "&amp;"); } else { ReplaceAbsent([c], '&', "&amp;"); }
    }
    var e2 := if c == '<' then "&lt;" else e1;
    assert ReplaceAll(e1, "<", "&lt;") == e2 by {
      if c == '<' { ReplaceHit(c, "&lt;"); } else { ReplaceAbsent(e1, '<', "&lt;"); }
    }
    var e3 := if c == '>' then "&gt;" else e2;
    assert ReplaceAll(e2, ">", "&gt;") == e3 by {
      if c == '>' { ReplaceHit(c, "&gt;"); } else { ReplaceAbsent(e2, '>', "&gt;"); }
    }
    var e4 := if c == '"' then "&quot;" else e3;
    assert ReplaceAll(e3, "\"", "&quot;") == e4 by {
      if c == '"' { ReplaceHit(c, "&quot;"); } else { ReplaceAbsent(e3, '"', "&quot;"); }
    }
    var e5 := if c == '\'' then "&#039;" else e4;
    assert ReplaceAll(e4, "'", "&#039;") == e5 by {
      if c == '\'' { ReplaceHit(c, "&#039;"); } else { ReplaceAbsent(e4, '\'', "&#039;"); }
    }
  }

  /** Every stage of the chain acts on the two halves of a text separately. */
  lemma ChainAppend(a: string, b: string)
    ensures Chain(a + b) == Chain(a) + Chain(b)
  {
    ReplaceCharAppend(a, b, '&', "&amp;");
    var a1, b1 := ReplaceAll(a, "&", "&amp;"), ReplaceAll(b, "&", "&amp;");
    ReplaceCharAppend(a1, b1, '<', "&lt;");
    var a2, b2 := ReplaceAll(a1, "<", "&lt;"), ReplaceAll(b1, "<", "&lt;");
    ReplaceCharAppend(a2, b2, '>', "&gt;");
    var a3, b3 := ReplaceAll(a2, ">", "&gt;"), ReplaceAll(b2, ">", "&gt;");
    ReplaceCharAppend(a3, b3, '"', "&quot;");
    var a4, b4 := ReplaceAll(a3, "\"", "&quot;"), ReplaceAll(b3, "\"", "&quot;");
    ReplaceCharAppend(a4, b4, '\'', "&#039;");
  }

  /** Replacing the ampersand first makes the chain a per-character serialiser: no entity
      written by a later stage is escaped again. */
  lemma {:induction false} ChainIsEscapeChars(s: string)
    ensures Chain(s) == EscapeChars(s)
    decreases |s|
  {
    if s == [] {
      ReplaceAbsent([], '&', "&amp;");
      ReplaceAbsent([], '<', "&lt;");
      ReplaceAbsent([], '>', "&gt;");
      ReplaceAbsent([], '"', "&quot;");
      ReplaceAbsent([], '\'', "&#039;");
    } else {
      assert s == [s[0]] + s[1..];
      ChainAppend([s[0]], s[1..]);
      ChainChar(s[0]);
      ChainIsEscapeChars(s[1..]);
    }
  }

  lemma {:induction false} EscapeCharsAppend(a: string, b: string)
    ensures EscapeChars(a + b) == EscapeChars(a) + EscapeChars(b)
    decreases |a|
  {
    if a == [] {
      assert a + b == b;
    } else {
      assert (a + b)[1..] == a[1..] + b;
      EscapeCharsAppend(a[1..], b);
    }
  }

  /** The decoder of the five entities (any other text is copied). */
  function Unescape(r: string): string
    decreases |r|
  {
    if r == [] then []
    else if r[0] != '&' then [r[0]] + Unescape(r[1..])
    else if StartsWith(r, "&amp;") then "&" + Unescape(r[5..])
    else if StartsWith(r, "&lt;") then "<" + Unescape(r[4..])
    else if StartsWith(r, "&gt;") then ">" + Unescape(r[4..])
    else if StartsWith(r, "&quot;") then "\"" + Unescape(r[6..])
    else if StartsWith(r, "&#039;") then "'" + Unescape(r[6..])
    else [r[0]] + Unescape(r[1..])
  }

  lemma UnescapeStep(c: char, rest: string)
    ensures Unescape(EscapeChar(c) + rest) == [c] + Unescape(rest)
  {
    match c
    case '&' => UnescapeAmp(rest);
    case '<' => UnescapeLt(rest);
    case '>' => UnescapeGt(rest);
    case '"' => UnescapeQuot(rest);
    case '\'' => UnescapeApos(rest);
    case _ => UnescapePlain(c, rest);
  }

  lemma UnescapePlain(c: char, rest: string)
    requires c != '&'
    ensures Unescape([c] + rest) == [c] + Unescape(rest)
  {
    assert ([c] + rest)[1..] == rest;
  }

  lemma UnescapeAmp(rest: string)
    ensures Unescape("&amp;" + rest) == "&" + Unescape(rest)
  {
    var t := "&amp;" + rest;
    assert t[..5] == "&amp;" && t[5..] == rest;
  }

  lemma UnescapeLt(rest: string)
    ensures Unescape("&lt;" + rest) == "<" + Unescape(rest)
  {
    var t := "&lt;" + rest;
    assert t[..4] == "&lt;" && t[4..] == rest;
    assert t[1] == 'l';
  }

  lemma UnescapeGt(rest: string)
    ensures Unescape("&gt;" + rest) == ">" + Unescape(rest)
  {
    var t := "&gt;" + rest;
    assert t[..4] == "&gt;" && t[4..] == rest;
    assert t[1] == 'g';
  }

  lemma UnescapeQuot(rest: string)
    ensures Unescape("&quot;" + rest) == "\"" + Unescape(rest)
  {
    var t := "&quot;" + rest;
    assert t[..6] == "&quot;" && t[6..] == rest;
    assert t[1] == 'q';
  }

  lemma UnescapeApos(rest: string)
    ensures Unescape("&#039;" + rest) == "'" + Unescape(rest)
  {
    var t := "&#039;" + rest;
    assert t[..6] == "&#039;" && t[6..] == rest;
    assert t[1] == '#';
  }

  /** Decoding the escaped text gives the text back. */
  lemma {:induction false} UnescapeEscapeChars(s: string)
    ensures Unescape(EscapeChars(s)) == s
    decreases |s|
  {
    if s != [] {
      UnescapeEscapeChars(s[1..]);
      UnescapeStep(s[0], EscapeChars(s[1..]));
      assert [s[0]] + s[1..] == s;
    }
  }

  /** No markup-significant character in the escaped text. */
  lemma {:induction false} EscapedSafeChars(s: string)
    ensures forall c :: c in EscapeChars(s) ==> c != '<' && c != '>' && c != '"' && c != '\''
    decreases |s|
  {
    if s != [] {
      EscapedSafeChars(s[1..]);
      var e := EscapeChar(s[0]);
      assert forall c :: c in e ==> c != '<' && c != '>' && c != '"' && c != '\'';
      assert forall c :: c in e + EscapeChars(s[1..]) ==> c in e || c in EscapeChars(s[1..]);
    }
  }

  /** One of the five entities starts the text. */
  predicate EntityStart(t: string)
  {
    StartsWith(t, "&amp;") || StartsWith(t, "&lt;") || StartsWith(t, "&gt;")
    || StartsWith(t, "&quot;") || StartsWith(t, "&#039;")
  }

  /** An entity written for one character has its only ampersand in front. */
  lemma EscapeCharAmpersand(c: char, rest: string)
    ensures var e := EscapeChar(c);
      && (forall i :: 0 < i < |e| ==> e[i] != '&')
      && (e[0] == '&' ==> EntityStart(e + rest))
  {
    var e := EscapeChar(c);
    var t := e + rest;
    if IsSpecial(c) {
      assert t[..|e|] == e;
    }
  }

  /** Every ampersand of `r` begins one of the entities. */
  predicate AmpersandsAreEntities(r: string)
  {
    forall i :: 0 <= i < |r| && r[i] == '&' ==> EntityStart(r[i..])
  }

  lemma {:induction false} EscapedAmpersandsChars(s: string)
    ensures AmpersandsAreEntities(EscapeChars(s))
    decreases |s|
  {
    if s != [] {
      EscapedAmpersandsChars(s[1..]);
      var e := EscapeChar(s[0]);
      var rest := EscapeChars(s[1..]);
      var r := e + rest;
      EscapeCharAmpersand(s[0], rest);
      forall i | 0 <= i < |r| && r[i] == '&' ensures EntityStart(r[i..]) {
        if i < |e| {
          assert r[i] == e[i];
          assert r[0] == e[0];
          assert r[i..] == e + rest;
        } else {
          assert r[i..] == rest[i - |e|..] && rest[i - |e|] == '&';
        }
      }
    }
  }

  /** Text without a special character is shown as it is. */
  lemma {:induction false} EscapePlainChars(s: string)
    requires forall k :: 0 <= k < |s| ==> !IsSpecial(s[k])
    ensures EscapeChars(s) == s
    decreases |s|
  {
    if s != [] {
      EscapePlainChars(s[1..]);
      assert !IsSpecial(s[0]);
      assert [s[0]] + s[1..] == s;
    }
  }

  /** What `escapeHtml` promises: the decoded output is the input, the output holds none of
      `<`, `>`, `"`, `'`, each of its ampersands begins an entity, and a text with none of the
      five special characters is shown unchanged. */
  lemma EscapeHtmlFacts(s: string)
    ensures var r := EscapeHtml(Some(s));
      && Unescape(r) == s
      && (forall c :: c in r ==> c != '<' && c != '>' && c != '"' && c != '\'')
      && AmpersandsAreEntities(r)
      && ((forall k :: 0 <= k < |s| ==> !IsSpecial(s[k])) ==> r == s)
  {
    UnescapeEscapeChars(s);
    EscapedSafeChars(s);
    EscapedAmpersandsChars(s);
    if forall k :: 0 <= k < |s| ==> !IsSpecial(s[k]) {
      EscapePlainChars(s);
    }
  }

  // ------------------------------------------------------------ insight badges

  datatype Badge = DataRich | VisualGallery | ResourceHub | LongForm | WellStructured

  /** The fixed order in which the badges are tested. */
  function Rank(b: Badge): nat
  {
    match b
    case DataRich => 0
    case VisualGallery => 1
    case ResourceHub => 2
    case LongForm => 3
    case WellStructured => 4
  }

  predicate InRankOrder(bs: seq<Badge>)
  {
    forall i, j :: 0 <= i < j < |bs| ==> Rank(bs[i]) < Rank(bs[j])
  }

  /** The threshold of each badge. */
  predicate Earned(b: Badge, page: PageData)
  {
    match b
    case DataRich => Count(page.data.tables) > 0
    case VisualGallery => Count(page.data.images) > 5
    case ResourceHub => Count(page.data.links) > 20
    case LongForm => Count(page.data.paragraphs) > 10
    case WellStructured => Count(page.data.headings) > 10
  }

  /** `bs` holds, in rank order, exactly the earned badges ranked below `k`. */
  predicate BadgesBelow(bs: seq<Badge>, page: PageData, k: nat)
  {
    && InRankOrder(bs)
    && (forall x :: x in bs ==> Rank(x) < k)
    && (forall x :: Rank(x) < k ==> (x in bs <==> Earned(x, page)))
  }

  /** Testing the badge of rank `k`, and pushing it when it is earned, extends the list to
      the badges below `k + 1`. */
  lemma PushBadge(bs: seq<Badge>, b: Badge, page: PageData)
    requires BadgesBelow(bs, page, Rank(b))
    ensures Earned(b, page) ==> BadgesBelow(bs + [b], page, Rank(b) + 1)
    ensures !Earned(b, page) ==> BadgesBelow(bs, page, Rank(b) + 1)
  {
    var r := bs + [b];
    forall i, j | 0 <= i < j < |r| ensures Rank(r[i]) < Rank(r[j]) {
      assert r[i] == bs[i];
      if j < |bs| {
        assert r[j] == bs[j];
      }
    }
    assert forall x :: x in r <==> x in bs || x == b;
    forall x | Rank(x) == Rank(b) ensures x == b {
    }
  }

  /** The badges of a result card, pushed in the order they are tested. */
  method Insights(page: PageData) returns (insights: seq<Badge>)
    ensures DataRich in insights <==> Count(page.data.tables) > 0
    ensures VisualGallery in insights <==> Count(page.data.images) > 5
    ensures ResourceHub in insights <==> Count(page.data.links) > 20
    ensures LongForm in insights <==> Count(page.data.paragraphs) > 10
    ensures WellStructured in insights <==> Count(page.data.headings) > 10
    ensures InRankOrder(insights)
  {
    insights := [];
    PushBadge(insights, DataRich, page);
    if Count(page.data.tables) > 0 {
      insights := insights + [DataRich];
    }
    PushBadge(insights, VisualGallery, page);
    if Count(page.data.images) > 5 {
      insights := insights + [VisualGallery];
    }
    PushBadge(insights, ResourceHub, page);
    if Count(page.data.links) > 20 {
      insights := insights + [ResourceHub];
    }
    PushBadge(insights, LongForm, page);
    if Count(page.data.paragraphs) > 10 {
      insights := insights + [LongForm];
    }
    PushBadge(insights, WellStructured, page);
    if Count(page.data.headings) > 10 {
      insights := insights + [WellStructured];
    }
    assert BadgesBelow(insights, page, 5);
    assert Rank(DataRich) < 5 && Rank(VisualGallery) < 5 && Rank(ResourceHub) < 5 && Rank(LongForm) < 5;
  }

  /** The first badge of a list in rank order has the lowest rank of the list. */
  lemma FirstRanksLowest(bs: seq<Badge>, b: Badge)
    requires InRankOrder(bs) && b in bs
    ensures Rank(bs[0]) <= Rank(b)
  {
    var k :| 0 <= k < |bs| && bs[k] == b;
  }

  /** Which badges appear and their rank order fix the badge list: two lists with the same
      badges, both in rank order, are the same list. */
  lemma {:induction false} BadgesDetermined(xs: seq<Badge>, ys: seq<Badge>)
    requires forall b :: b in xs <==> b in ys
    requires InRankOrder(xs) && InRankOrder(ys)
    ensures xs == ys
    decreases |xs|
  {
    if xs == [] {
      assert forall k :: 0 <= k < |ys| ==> ys[k] in ys;
    } else {
      assert xs[0] in ys && ys[0] in xs;
      FirstRanksLowest(xs, ys[0]);
      FirstRanksLowest(ys, xs[0]);
      assert xs[0] == ys[0];
      forall b ensures b in xs[1..] <==> b in ys[1..] {
        assert b in xs[1..] <==> b in xs && b != xs[0];
        assert b in ys[1..] <==> b in ys && b != ys[0];
      }
      assert InRankOrder(xs[1..]) && InRankOrder(ys[1..]);
      BadgesDetermined(xs[1..], ys[1..]);
      assert xs == [xs[0]] + xs[1..] && ys == [ys[0]] + ys[1..];
    }
  }

  // ------------------------------------------------------------ previews

  predicate ContentInternal(l: Filters.Link)
  {
    l.kind == Filters.Internal && l.context == Filters.Content
  }

  predicate ContentExternal(l: Filters.Link)
  {
    l.kind == Filters.External && l.context == Filters.Content
  }

  /** The "Top Content Links" of a card: internal content links, then external ones, six at
      most. */
  function PreviewLinks(links: seq<Filters.Link>): seq<Filters.Link>
  {
    Take(Where(links, ContentInternal) + Where(links, ContentExternal), 6)
  }

  /** The preview holds min(6, n) links of the card, n being the number of internal and
      external content links, and each of them is one of those. */
  lemma PreviewLinksMembers(links: seq<Filters.Link>)
    ensures var r := PreviewLinks(links);
      var n := |Where(links, ContentInternal)| + |Where(links, ContentExternal)|;
      && |r| == (if n < 6 then n else 6)
      && (forall l :: l in r ==> l in links && (ContentInternal(l) || ContentExternal(l)))
  {
    var internal := Where(links, ContentInternal);
    var external := Where(links, ContentExternal);
    var all := internal + external;
    var r := PreviewLinks(links);
    forall l | l in r ensures l in links && (ContentInternal(l) || ContentExternal(l)) {
      var i :| 0 <= i < |r| && r[i] == l;
      assert all[i] == l && l in all;
    }
  }

  /** Internal links come first in the preview. */
  lemma PreviewLinksOrder(links: seq<Filters.Link>)
    ensures var r := PreviewLinks(links);
      forall i, j :: 0 <= i < j < |r| && ContentInternal(r[j]) ==> ContentInternal(r[i])
  {
    var internal := Where(links, ContentInternal);
    var external := Where(links, ContentExternal);
    var all := internal + external;
    var r := PreviewLinks(links);
    assert forall k :: 0 <= k < |internal| ==> all[k] == internal[k] && internal[k] in internal;
    assert forall k :: |internal| <= k < |all| ==> all[k] == external[k - |internal|] && external[k - |internal|] in external;
    forall i, j | 0 <= i < j < |r| && ContentInternal(r[j]) ensures ContentInternal(r[i]) {
      assert r[j] == all[j] && r[i] == all[i];
    }
  }

  /** With at most six content links there is room for each of them. */
  lemma PreviewLinksComplete(links: seq<Filters.Link>)
    requires |Where(links, ContentInternal)| + |Where(links, ContentExternal)| <= 6
    ensures forall l :: l in links && (ContentInternal(l) || ContentExternal(l)) ==> l in PreviewLinks(links)
  {
    var all := Where(links, ContentInternal) + Where(links, ContentExternal);
    assert PreviewLinks(links) == all;
  }

  /** The internal content links lead the preview: with six or more of them the preview is
      their first six, and otherwise it starts with all of them. */
  lemma PreviewLinksInternalFirst(links: seq<Filters.Link>)
    ensures var internal := Where(links, ContentInternal);
      var r := PreviewLinks(links);
      && (|internal| >= 6 ==> r == internal[..6])
      && (|internal| < 6 ==> |internal| <= |r| && r[..|internal|] == internal)
  {
    var internal := Where(links, ContentInternal);
    var all := internal + Where(links, ContentExternal);
    var r := PreviewLinks(links);
    assert forall k :: 0 <= k < |internal| ==> all[k] == internal[k];
    if |internal| >= 6 {
      assert forall k :: 0 <= k < 6 ==> r[k] == internal[k];
    } else {
      assert forall k :: 0 <= k < |internal| ==> r[k] == internal[k];
    }
  }

  /** The preview heuristic: a source mentioning a logo or an icon, or an alt text
      mentioning a logo. */
  predicate LogoLike(img: Filters.Image)
  {
    Contains(Lower(img.src), "logo") || Contains(Lower(img.src), "icon") || Contains(Lower(img.alt), "logo")
  }

  function HeroImages(images: seq<Filters.Image>): seq<Filters.Image>
  {
    Where(images, (img: Filters.Image) => !LogoLike(img))
  }

  /** The card's gallery preview: the hero images, or every image when none is left, four at
      most. */
  function PreviewImages(images: seq<Filters.Image>): seq<Filters.Image>
  {
    var hero := HeroImages(images);
    Take(if hero != [] then hero else images, 4)
  }

  lemma PreviewImagesFacts(images: seq<Filters.Image>)
    ensures var r := PreviewImages(images);
      && |r| <= 4
      && (forall x :: x in r ==> x in images)
      && (images != [] ==> r != [])
      && ((exists x :: x in images && !LogoLike(x)) ==> forall x :: x in r ==> !LogoLike(x))
      && ((forall x :: x in images ==> LogoLike(x)) ==> r == Take(images, 4))
  {
    var hero := HeroImages(images);
    var r := PreviewImages(images);
    forall x | x in r ensures x in images && (hero != [] ==> !LogoLike(x)) {
      var i :| 0 <= i < |r| && r[i] == x;
      if hero != [] {
        assert hero[i] == x;
      } else {
        assert images[i] == x;
      }
    }
    if exists x :: x in images && !LogoLike(x) {
      var x :| x in images && !LogoLike(x);
      assert x in hero;
    }
    assert hero != [] ==> hero[0] in hero;
    if images != [] {
      if hero != [] {
        assert |r| > 0;
      }
    }
  }

  // ------------------------------------------------------------ filter and sort

  datatype SortKey = ByHeadings | ByParagraphs | ByUrl | ByTitle

  /** The sort select's value: missing or unknown values sort by title. */
  function SortKeyOf(value: string): (k: SortKey)
    ensures value != "headings" && value != "paragraphs" && value != "url" ==> k == ByTitle
  {
    if value == "headings" then ByHeadings
    else if value == "paragraphs" then ByParagraphs
    else if value == "url" then ByUrl
    else ByTitle
  }

  /** The comparator as an ascending integer key: counts descending, and text in the order
      of `collate`, the locale's collation rank (an input: `localeCompare` depends on the
      locale). */
  function KeyFor(k: SortKey, collate: string -> int): PageData -> int
  {
    match k
    case ByHeadings => (p: PageData) => -(Count(p.data.headings) as int)
    case ByParagraphs => (p: PageData) => -(Count(p.data.paragraphs) as int)
    case ByUrl => (p: PageData) => collate(p.url)
    case ByTitle => (p: PageData) => collate(TextOr(p.data.title))
  }

  /** The query the filter searches for: trimmed, then lower-cased. */
  function Needle(query: string): string
  {
    Lower(JsTrim(query))
  }

  /** Title, meta description, headings and paragraphs joined by spaces, lower-cased. */
  function Haystack(p: PageData): string
  {
    Lower(JoinWith(" ", [TextOr(p.data.title), TextOr(p.data.metaDescription)]
      + Items(p.data.headings) + Items(p.data.paragraphs)))
  }

  predicate Matches(p: PageData, q: string)
  {
    Contains(Haystack(p), q)
  }

  /** What the filter keeps of `items` for the needle `q`. */
  function Filtered(items: seq<PageData>, q: string): seq<PageData>
  {
    if q == "" then items else Where(items, (p: PageData) => Matches(p, q))
  }

  /** `applyFiltersSort`. With a blank query the caller's own array is sorted in place and
      returned; otherwise a new array of the matching results is sorted and the caller's is
      left alone. */
  method ApplyFiltersSort(data: array<PageData>, query: string, sortValue: string, collate: string -> int)
    returns (filtered: array<PageData>)
    modifies data
    ensures var key := KeyFor(SortKeyOf(sortValue), collate);
      filtered[..] == Sorting.SortBy(Filtered(old(data[..]), Needle(query)), key)
    ensures Needle(query) == "" ==> filtered == data
    ensures Needle(query) != "" ==> fresh(filtered) && data[..] == old(data[..])
  {
    var q := Needle(query);
    filtered := data;
    if q != "" {
      filtered := FromSeq(Where(data[..], (p: PageData) => Matches(p, q)));
    }
    SortInPlace(filtered, KeyFor(SortKeyOf(sortValue), collate));
  }

  /** A new array holding `xs`. */
  method FromSeq<T>(xs: seq<T>) returns (a: array<T>)
    ensures fresh(a) && a[..] == xs
  {
    a := new T[|xs|](i requires 0 <= i < |xs| => xs[i]);
  }

  /** `Array.prototype.sort` with a comparator by `key`: the stable sort, in place. */
  method SortInPlace<T>(a: array<T>, key: T -> int)
    modifies a
    ensures a[..] == Sorting.SortBy(old(a[..]), key)
  {
    var sorted := Sorting.SortBy(a[..], key);
    forall i | 0 <= i < a.Length {
      a[i] := sorted[i];
    }
  }

  /** A query of JavaScript whitespace only (or none) filters nothing out. */
  lemma BlankNeedle(query: string)
    ensures Needle(query) == "" <==> forall k :: 0 <= k < |query| ==> IsJsSpace(query[k])
  {
    StripFacts(query, IsJsSpace);
  }

  /** The filter-and-sort result: a stable permutation of the kept results, which are
      exactly the results whose haystack contains the needle (all of them for a blank
      needle), in descending count order for the count keys. */
  lemma FilterSortFacts(items: seq<PageData>, query: string, sortValue: string, collate: string -> int)
    ensures var q := Needle(query);
      var kept := Filtered(items, q);
      var key := KeyFor(SortKeyOf(sortValue), collate);
      var r := Sorting.SortBy(kept, key);
      && multiset(r) == multiset(kept)
      && (q == "" ==> multiset(r) == multiset(items))
      && (forall p :: p in r <==> p in items && (q == "" || Matches(p, q)))
      && (SortKeyOf(sortValue) == ByHeadings ==>
            forall i, j :: 0 <= i < j < |r| ==> Count(r[i].data.headings) >= Count(r[j].data.headings))
      && (SortKeyOf(sortValue) == ByParagraphs ==>
            forall i, j :: 0 <= i < j < |r| ==> Count(r[i].data.paragraphs) >= Count(r[j].data.paragraphs))
      && (forall k :: Sorting.WithKey(r, key, k) == Sorting.WithKey(kept, key, k))
  {
    var q := Needle(query);
    var kept := Filtered(items, q);
    var key := KeyFor(SortKeyOf(sortValue), collate);
    var r := Sorting.SortBy(kept, key);
    assert forall p :: p in r <==> p in multiset(r);
    assert forall p :: p in kept <==> p in multiset(kept);
    forall k ensures Sorting.WithKey(r, key, k) == Sorting.WithKey(kept, key, k) {
      Sorting.SortByStable(kept, key, k);
    }
  }
}
