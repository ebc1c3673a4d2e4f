/**
 * `ContentFilter.extract` of `scraper/filters.py`: the independent extraction rules for a
 * page's title, meta description, headings, paragraphs, tables, links and images, each
 * enabled by a flag of the `sections` configuration. Each rule is a method that builds its
 * list the way the source does (loops, appends, a `seen` set), proved equal to a function
 * of the document; the properties of the rules are lemmas about those functions.
 */
module Filters {
  import opened Wrappers
  import opened Text
  import opened Dom
  import opened Urls
  import Parser

  /** The `sections` configuration; `domain` is "" when the key is absent. */
  datatype Sections = Sections(
    title: bool, metaDescription: bool, headings: bool, paragraphs: bool,
    tables: bool, links: bool, images: bool, domain: string)

  datatype Table = Table(headers: seq<string>, rows: seq<seq<string>>)

  datatype LinkKind = Internal | External | Email | Phone

  datatype LinkContext = Nav | Footer | Sidebar | Content

  datatype Link = Link(text: string, href: string, kind: LinkKind, context: LinkContext)

  datatype Image = Image(src: string, alt: string, width: Option<string>, height: Option<string>)

  /** The `data` dictionary: a section is None when its key is absent. */
  datatype Extracted = Extracted(
    title: Option<string>, metaDescription: Option<string>,
    headings: Option<seq<string>>, paragraphs: Option<seq<string>>,
    tables: Option<seq<Table>>, links: Option<seq<Link>>, images: Option<seq<Image>>)

  /** The empty dictionary. */
  const NoData := Extracted(None, None, None, None, None, None, None)

  const HeadingTags: set<string> := {"h1", "h2", "h3"}
  const CellTags: set<string> := {"th", "td"}

  // ------------------------------------------------------------ title

  /** The title element's text with whitespace runs collapsed when it has any text, else the
      first `h1`'s text collapsed the same way, else "No Title". */
  function TitleOf(doc: Node): string
  {
    var t := Find(Root(doc), {"title"});
    if t.Some? && GetTextSep(t.value.node, "") != "" then CollapseSpaces(GetText(t.value.node))
    else match Find(Root(doc), {"h1"})
      case Some(h) => CollapseSpaces(GetText(h.node))
      case None => "No Title"
  }

  /** Which source the title comes from; a title taken from the title element is never empty. */
  lemma TitleCases(doc: Node)
    ensures var t := Find(Root(doc), {"title"});
      if t.Some? && GetText(t.value.node) != "" then
        TitleOf(doc) == CollapseSpaces(GetText(t.value.node)) && TitleOf(doc) != ""
      else if Find(Root(doc), {"h1"}).Some? then TitleOf(doc) == CollapseSpaces(GetText(Find(Root(doc), {"h1"}).value.node))
      else TitleOf(doc) == "No Title"
    ensures TitleOf(doc) == "No Title" || Collapsed(TitleOf(doc))
  {
    var t := Find(Root(doc), {"title"});
    if t.Some? {
      GetTextEmpty(t.value.node, "");
      GetTextEmpty(t.value.node, " ");
      var g := GetText(t.value.node);
      if g != "" {
        GetTextTrimmed(t.value.node);
        assert !IsSpace(g[0]);
      }
    }
  }

  // ------------------------------------------------------------ meta description

  /** The first located node whose attribute `key` is exactly `value`. */
  function FirstWithAttr(ls: seq<Located>, key: string, value: string): (r: Option<Located>)
    ensures r.Some? ==> r.value in ls && Attr(r.value.node, key) == Some(value)
    ensures r.None? ==> forall l :: l in ls ==> Attr(l.node, key) != Some(value)
    decreases |ls|
  {
    if ls == [] then None
    else if Attr(ls[0].node, key) == Some(value) then Some(ls[0])
    else FirstWithAttr(ls[1..], key, value)
  }

  /** The stripped `content` of `soup.find('meta', attrs={key: value})`, or "". */
  function MetaContent(doc: Node, key: string, value: string): (r: string)
    ensures r != "" ==> !IsSpace(r[0]) && !IsSpace(r[|r| - 1])
  {
    match FirstWithAttr(FindAll(Root(doc), {"meta"}), key, value)
    case None => ""
    case Some(m) => Strip(AttrText(m.node, "content"))
  }

  function MetaDescriptionOf(doc: Node): string
  {
    var d := MetaContent(doc, "name", "description");
    if d != "" then d
    else
      var og := MetaContent(doc, "property", "og:description");
      if og != "" then og else MetaContent(doc, "name", "twitter:description")
  }

  /** The description is the first non-empty source in priority order, and "" only when all
      three are empty. */
  lemma MetaDescriptionPriority(doc: Node)
    ensures var d := MetaContent(doc, "name", "description");
      var og := MetaContent(doc, "property", "og:description");
      var tw := MetaContent(doc, "name", "twitter:description");
      && (d != "" ==> MetaDescriptionOf(doc) == d)
      && (d == "" && og != "" ==> MetaDescriptionOf(doc) == og)
      && (d == "" && og == "" ==> MetaDescriptionOf(doc) == tw)
      && (MetaDescriptionOf(doc) == "" <==> d == "" && og == "" && tw == "")
    ensures var m := MetaDescriptionOf(doc); m != "" ==> !IsSpace(m[0]) && !IsSpace(m[|m| - 1])
  {
  }

  // ------------------------------------------------------------ headings and paragraphs

  /** `[x.get_text(" ", strip=True) for x in ls]`. */
  function TextsOf(ls: seq<Located>): (r: seq<string>)
    ensures |r| == |ls|
  {
    seq(|ls|, i requires 0 <= i < |ls| => GetText(ls[i].node))
  }

  /** The texts longer than `minLen`, in order. */
  function Longer(ts: seq<string>, minLen: nat): (r: seq<string>)
    ensures forall t :: t in r ==> |t| > minLen
    decreases |ts|
  {
    if ts == [] then []
    else
      var t := ts[|ts| - 1];
      Longer(ts[..|ts| - 1], minLen) + (if |t| > minLen then [t] else [])
  }

  lemma LongerStep(ts: seq<string>, i: nat, minLen: nat)
    requires i < |ts|
    ensures Longer(ts[..i + 1], minLen) == Longer(ts[..i], minLen) + (if |ts[i]| > minLen then [ts[i]] else [])
  {
    assert ts[..i + 1][..i] == ts[..i];
  }

  /** A text is kept exactly when it is long enough and occurs, and the order is kept. */
  lemma {:induction false} LongerMembers(ts: seq<string>, minLen: nat, t: string)
    ensures t in Longer(ts, minLen) <==> |t| > minLen && t in ts
    decreases |ts|
  {
    if ts != [] {
      var init := ts[..|ts| - 1];
      LongerMembers(init, minLen, t);
      assert ts == init + [ts[|ts| - 1]];
    }
  }

  /** The texts kept from the located nodes: those longer than `minLen`. */
  function KeptTexts(ls: seq<Located>, minLen: nat): seq<string>
  {
    Longer(TextsOf(ls), minLen)
  }

  /** A text is kept exactly when some node has it and it is long enough. */
  lemma KeptTextsMembers(ls: seq<Located>, minLen: nat, t: string)
    ensures t in KeptTexts(ls, minLen) <==> |t| > minLen && exists l :: l in ls && GetText(l.node) == t
  {
    LongerMembers(TextsOf(ls), minLen, t);
    var ts := TextsOf(ls);
    if t in ts {
      var k :| 0 <= k < |ts| && ts[k] == t;
      assert ls[k] in ls;
    }
    if exists l :: l in ls && GetText(l.node) == t {
      var l :| l in ls && GetText(l.node) == t;
      var k :| 0 <= k < |ls| && ls[k] == l;
      assert ts[k] == t;
    }
  }

  /** The heading texts: the non-empty texts of `h1`, `h2`, `h3` in document order. */
  function HeadingsOf(doc: Node): seq<string>
  {
    KeptTexts(FindAll(Root(doc), HeadingTags), 0)
  }

  /** The paragraph texts longer than 20 characters, in document order. */
  function ParagraphsOf(doc: Node): seq<string>
  {
    KeptTexts(FindAll(Root(doc), {"p"}), 20)
  }

  // ------------------------------------------------------------ tables

  /** `[c.get_text(" ", strip=True) for c in x.find_all(['th', 'td'])]`. */
  function CellTexts(x: Located): (r: seq<string>)
    ensures |r| == |FindAll(x, CellTags)|
  {
    var cs := FindAll(x, CellTags);
    seq(|cs|, i requires 0 <= i < |cs| => GetText(cs[i].node))
  }

  /** The headers: from the `thead` cells, else from the first row when it has a `th` or the
      table has more than one row. */
  function HeadersOf(table: Located): seq<string>
  {
    var thead := Find(table, {"thead"});
    var fromHead := if thead.Some? then CellTexts(thead.value) else [];
    if fromHead != [] then fromHead
    else
      var trs := FindAll(table, {"tr"});
      if trs != [] && (FindAll(trs[0], {"th"}) != [] || |trs| > 1) then CellTexts(trs[0]) else []
  }

  /** 1 when the first row repeats the headers of a table without `thead`, else 0. */
  function StartIndex(table: Located, headers: seq<string>): (i: nat)
    ensures i <= |FindAll(table, {"tr"})|
  {
    var trs := FindAll(table, {"tr"});
    if headers != [] && Find(table, {"thead"}).None? && trs != []
      && FindAll(trs[0], CellTags) != [] && CellTexts(trs[0]) == headers
    then 1 else 0
  }

  predicate HasText(cells: seq<string>)
  {
    exists k :: 0 <= k < |cells| && cells[k] != ""
  }

  /** A body row: not inside a `thead`, with at least one non-empty cell. */
  predicate KeptRow(tr: Located)
  {
    FindParent(tr, "thead").None? && HasText(CellTexts(tr))
  }

  function RowsOf(trs: seq<Located>): (r: seq<seq<string>>)
    ensures |r| <= |trs|
    ensures forall row :: row in r ==> HasText(row)
    decreases |trs|
  {
    if trs == [] then []
    else
      var tr := trs[|trs| - 1];
      RowsOf(trs[..|trs| - 1]) + (if KeptRow(tr) then [CellTexts(tr)] else [])
  }

  lemma RowsStep(trs: seq<Located>, i: nat)
    requires i < |trs|
    ensures RowsOf(trs[..i + 1]) == RowsOf(trs[..i]) + (if KeptRow(trs[i]) then [CellTexts(trs[i])] else [])
  {
    assert trs[..i + 1][..i] == trs[..i];
  }

  function TableOf(table: Located): Table
  {
    var headers := HeadersOf(table);
    var trs := FindAll(table, {"tr"});
    Table(headers, RowsOf(trs[StartIndex(table, headers)..]))
  }

  /** The quality check: some rows, or more than one header. */
  predicate Worth(t: Table)
  {
    t.rows != [] || |t.headers| > 1
  }

  /** A table outside any other table whose data passes the quality check. */
  predicate KeptTable(l: Located)
  {
    FindParent(l, "table").None? && Worth(TableOf(l))
  }

  function TablesOf(ls: seq<Located>): (r: seq<Table>)
    ensures forall t :: t in r ==> Worth(t)
    decreases |ls|
  {
    if ls == [] then []
    else
      var l := ls[|ls| - 1];
      TablesOf(ls[..|ls| - 1]) + (if KeptTable(l) then [TableOf(l)] else [])
  }

  lemma TablesOfSnoc(ls: seq<Located>, i: nat)
    requires i < |ls|
    ensures TablesOf(ls[..i + 1]) == TablesOf(ls[..i]) + (if KeptTable(ls[i]) then [TableOf(ls[i])] else [])
  {
    assert ls[..i + 1][..i] == ls[..i];
  }

  /** Every extracted table comes from a table element outside any other table. */
  lemma {:induction false} TablesFromOuter(ls: seq<Located>, t: Table)
    requires t in TablesOf(ls)
    ensures exists l :: l in ls && FindParent(l, "table").None? && TableOf(l) == t
    decreases |ls|
  {
    var init := ls[..|ls| - 1];
    var l := ls[|ls| - 1];
    if t in TablesOf(init) {
      TablesFromOuter(init, t);
      var l' :| l' in init && FindParent(l', "table").None? && TableOf(l') == t;
      assert l' in ls;
    } else {
      assert KeptTable(l) && t == TableOf(l);
    }
  }

  /** The first row is dropped only from a table without `thead` whose first row's cells
      are its headers. */
  lemma FirstRowDropped(table: Located)
    ensures var trs := FindAll(table, {"tr"});
      if HeadersOf(table) != [] && Find(table, {"thead"}).None? && trs != []
        && FindAll(trs[0], CellTags) != [] && CellTexts(trs[0]) == HeadersOf(table)
      then TableOf(table).rows == RowsOf(trs[1..])
      else TableOf(table).rows == RowsOf(trs)
  {
    var trs := FindAll(table, {"tr"});
    assert trs[0..] == trs;
  }

  /** Every row kept lies outside any `thead` and has a non-empty cell. */
  lemma {:induction false} RowsFromBody(trs: seq<Located>, row: seq<string>)
    requires row in RowsOf(trs)
    ensures HasText(row) && exists tr :: tr in trs && FindParent(tr, "thead").None? && CellTexts(tr) == row
    decreases |trs|
  {
    var init := trs[..|trs| - 1];
    if row in RowsOf(init) {
      RowsFromBody(init, row);
      var tr :| tr in init && FindParent(tr, "thead").None? && CellTexts(tr) == row;
      assert tr in trs;
    } else {
      assert trs[|trs| - 1] in trs;
    }
  }

  // ------------------------------------------------------------ links

  function Classes(n: Node): seq<string>
  {
    Words(AttrText(n, "class"))
  }

  /** The nearest `div` above the link has class `sidebar`, `menu` or `widget`. */
  predicate InWidget(a: Located)
  {
    match FindParent(a, "div")
    case None => false
    case Some(d) => "sidebar" in Classes(d) || "menu" in Classes(d) || "widget" in Classes(d)
  }

  /** Where on the page a link sits, judged from the tags above it. */
  function ContextOf(a: Located): LinkContext
  {
    var tags := ParentTags(a);
    if "nav" in tags || "header" in tags then Nav
    else if "footer" in tags then Footer
    else if "aside" in tags || ("div" in tags && InWidget(a)) then Sidebar
    else Content
  }

  /** Internal for a root-relative href, one holding the configured domain or one with the
      page's domain; else email, phone or external by prefix. */
  function KindOf(href: string, url: string, domain: string): LinkKind
  {
    KindFrom(href, (domain != "" && Contains(href, domain)) || (url != "" && GetDomain(url) == GetDomain(href)))
  }

  /** The classification once the domain tests are decided. */
  function KindFrom(href: string, sameSite: bool): LinkKind
  {
    if StartsWith(href, "/") || sameSite then Internal
    else if StartsWith(href, "mailto:") then Email
    else if StartsWith(href, "tel:") then Phone
    else External
  }

  /** The context rules in priority order, read off the link's ancestors. */
  lemma ContextByAncestors(a: Located)
    ensures var nav, footer, aside := FindParent(a, "nav").Some? || FindParent(a, "header").Some?,
                                      FindParent(a, "footer").Some?, FindParent(a, "aside").Some?;
      && (ContextOf(a) == Nav <==> nav)
      && (ContextOf(a) == Footer <==> !nav && footer)
      && (ContextOf(a) == Sidebar <==> !nav && !footer && (aside || InWidget(a)))
      && (ContextOf(a) == Content <==> !nav && !footer && !aside && !InWidget(a))
  {
    ParentTagsFindParent(a, "nav");
    ParentTagsFindParent(a, "header");
    ParentTagsFindParent(a, "footer");
    ParentTagsFindParent(a, "aside");
    ParentTagsFindParent(a, "div");
  }

  /** With no configured domain, an href whose domain is not the page's is judged by its
      prefix alone. */
  lemma KindWithoutSite(href: string, url: string)
    requires GetDomain(href) != GetDomain(url)
    ensures KindOf(href, url, "") == KindFrom(href, false)
  {
  }

  /** An href that is not root-relative and not on the site is classified by its prefix. */
  lemma KindByPrefix(href: string)
    requires href == "" || href[0] != '/'
    ensures KindFrom(href, false) ==
      if StartsWith(href, "mailto:") then Email else if StartsWith(href, "tel:") then Phone else External
  {
  }

  /** With no configured domain, on a page that has a domain, an href `scheme:rest` without
      an authority (`mailto:...`, `tel:...`) has no domain, so it is judged by its prefix
      alone, as `KindByPrefix` states. */
  lemma OpaqueHrefOffSite(href: string, url: string, scheme: string, rest: string)
    requires scheme != "" && IsAsciiLetter(scheme[0]) && forall k :: 0 <= k < |scheme| ==> IsSchemeChar(scheme[k])
    requires href == scheme + ":" + rest && !StartsWith(rest, "//") && GetDomain(url) != ""
    ensures KindOf(href, url, "") == KindFrom(href, false)
  {
    OpaqueNoDomain(href, scheme, rest);
    KindWithoutSite(href, url);
  }

  lemma OpaqueNoDomain(href: string, scheme: string, rest: string)
    requires scheme != "" && IsAsciiLetter(scheme[0]) && forall k :: 0 <= k < |scheme| ==> IsSchemeChar(scheme[k])
    requires href == scheme + ":" + rest && !StartsWith(rest, "//")
    ensures GetDomain(href) == ""
  {
    PrefixOf(scheme + ":", rest);
    assert href[|scheme| + 1..] == rest;
    SchemeNoNetloc(href, scheme);
  }

  lemma PrefixOf(p: string, rest: string)
    ensures StartsWith(p + rest, p)
  {
    assert (p + rest)[..|p|] == p;
  }

  lemma NotPrefixByFirst(s: string, p: string)
    requires p != "" && (s == "" || s[0] != p[0])
    ensures !StartsWith(s, p)
  {
    if |p| <= |s| {
      assert s[..|p|][0] != p[0];
    }
  }

  /** On a page with no configured domain, a valid URL on another domain is external. */
  lemma ForeignHrefExternal(href: string, url: string)
    requires IsValidUrl(href) && GetDomain(href) != GetDomain(url)
    ensures KindOf(href, url, "") == External
  {
    ValidUrlFirst(href);
    ExternalByFirst(href, url);
  }

  lemma ExternalByFirst(href: string, url: string)
    requires href != "" && (href[0] == 'h' || href[0] == 'H') && GetDomain(href) != GetDomain(url)
    ensures KindOf(href, url, "") == External
  {
    KindWithoutSite(href, url);
    KindByPrefix(href);
    NotPrefixByFirst(href, "mailto:");
    NotPrefixByFirst(href, "tel:");
  }

  /** The href a link is recorded under: None for an empty, fragment-only or `javascript:`
      href, or one that does not normalize against the page URL. */
  function LinkTarget(a: Located, url: string): (r: Option<string>)
    ensures r.Some? ==> r.value != ""
  {
    var href := Parser.Href(a);
    if href == "" || StartsWith(href, "#") || StartsWith(href, "javascript:") then None
    else if url == "" then Some(href)
    else match NormalizeUrl(url, href)
      case Some(h) => if h != "" then Some(h) else None
      case None => None
  }

  function LinkOf(a: Located, href: string, url: string, domain: string): (l: Link)
    ensures l.href == href && (l.text == href || l.text == GetText(a.node)) && (href != "" ==> l.text != "")
    ensures l.context == ContextOf(a)
  {
    var text := GetText(a.node);
    Link(if text != "" then text else href, href, KindOf(href, url, domain), ContextOf(a))
  }

  /** The set of hrefs of a list of links. */
  function Hrefs(links: seq<Link>): set<string>
  {
    set l | l in links :: l.href
  }

  predicate DistinctHrefs(links: seq<Link>)
  {
    forall i, j :: 0 <= i < j < |links| ==> links[i].href != links[j].href
  }

  /** One anchor processed: a link is added for a target not seen before. */
  function LinkStep(prev: (seq<Link>, set<string>), a: Located, url: string, domain: string): (seq<Link>, set<string>)
  {
    match LinkTarget(a, url)
    case None => prev
    case Some(h) => if h in prev.1 then prev else (prev.0 + [LinkOf(a, h, url, domain)], prev.1 + {h})
  }

  /** The `seen_links` set is the set of emitted hrefs, and no href is emitted twice. */
  predicate LinksInvariant(r: (seq<Link>, set<string>))
  {
    r.1 == Hrefs(r.0) && DistinctHrefs(r.0)
  }

  /** Adding a link under an href not yet seen keeps the invariant. */
  lemma AppendLinkKeeps(prev: (seq<Link>, set<string>), link: Link)
    requires LinksInvariant(prev) && link.href !in prev.1
    ensures LinksInvariant((prev.0 + [link], prev.1 + {link.href}))
  {
    var links := prev.0 + [link];
    assert Hrefs(links) == prev.1 + {link.href} by {
      assert forall k :: 0 <= k < |prev.0| ==> links[k] == prev.0[k];
    }
    forall i, j | 0 <= i < j < |links| ensures links[i].href != links[j].href {
      if j == |links| - 1 {
        assert prev.0[i] in prev.0;
      }
    }
  }

  lemma LinkStepKeeps(prev: (seq<Link>, set<string>), a: Located, url: string, domain: string)
    requires LinksInvariant(prev)
    ensures LinksInvariant(LinkStep(prev, a, url, domain))
  {
    var t := LinkTarget(a, url);
    if t.Some? && t.value !in prev.1 {
      AppendLinkKeeps(prev, LinkOf(a, t.value, url, domain));
    }
  }

  /** The links of the anchors and the set of hrefs seen: one link per new target. */
  function LinksOf(anchors: seq<Located>, url: string, domain: string): (r: (seq<Link>, set<string>))
    ensures LinksInvariant(r)
    decreases |anchors|
  {
    if anchors == [] then ([], {})
    else
      var prev := LinksOf(anchors[..|anchors| - 1], url, domain);
      LinkStepKeeps(prev, anchors[|anchors| - 1], url, domain);
      LinkStep(prev, anchors[|anchors| - 1], url, domain)
  }

  /** A link is emitted for a target exactly when some anchor has that target. */
  lemma {:induction false} LinksCover(anchors: seq<Located>, url: string, domain: string, h: string)
    ensures h in LinksOf(anchors, url, domain).1 <==> exists a :: a in anchors && LinkTarget(a, url) == Some(h)
    decreases |anchors|
  {
    if anchors != [] {
      var init := anchors[..|anchors| - 1];
      var last := anchors[|anchors| - 1];
      assert anchors == init + [last];
      assert forall a :: a in anchors <==> a in init || a == last;
      var prev := LinksOf(init, url, domain);
      assert LinksOf(anchors, url, domain) == LinkStep(prev, last, url, domain);
      LinkStepSeen(prev, last, url, domain, h);
      LinksCover(init, url, domain, h);
    }
  }

  /** An href is seen after a step exactly when it was seen before or is the anchor's. */
  lemma LinkStepSeen(prev: (seq<Link>, set<string>), a: Located, url: string, domain: string, h: string)
    ensures h in LinkStep(prev, a, url, domain).1 <==> h in prev.1 || LinkTarget(a, url) == Some(h)
  {
  }

  // ------------------------------------------------------------ images

  /** The first truthy value among two attributes, or "". */
  function EitherAttr(n: Node, first: string, second: string): string
  {
    if AttrText(n, first) != "" then AttrText(n, first) else AttrText(n, second)
  }

  /** The URL parts of a `srcset`: the first word of each non-blank comma-separated part. */
  function SrcsetUrls(parts: seq<string>): (r: seq<string>)
    ensures forall c :: c in r ==> c != ""
    decreases |parts|
  {
    if parts == [] then []
    else
      var p := Strip(parts[|parts| - 1]);
      SrcsetUrls(parts[..|parts| - 1]) + (if p == "" then [] else [FirstWord(p)])
  }

  /** `p.split()[0]` of a stripped, non-empty string. */
  function FirstWord(p: string): (w: string)
    requires p != "" && !IsSpace(p[0])
    ensures w != "" && forall k :: 0 <= k < |w| ==> !IsSpace(w[k])
  {
    assert !(forall k :: 0 <= k < |p| ==> IsSpace(p[k]));
    assert Words(p)[0] in Words(p);
    Words(p)[0]
  }

  /** The candidate sources: the `srcset` (or `data-srcset`) URLs, then `src` (or `data-src`). */
  function Candidates(img: Node): seq<string>
  {
    var src := EitherAttr(img, "src", "data-src");
    var srcset := EitherAttr(img, "srcset", "data-srcset");
    (if srcset != "" then SrcsetUrls(SplitOn(srcset, ',')) else []) + (if src != "" then [src] else [])
  }

  /** A candidate against the page URL: normalized when there is one. */
  function Resolved(c: string, url: string): Option<string>
  {
    if url != "" then NormalizeUrl(url, c) else Some(c)
  }

  /** The source a candidate yields: None for a `data:` URI or one that does not resolve to a
      new, non-empty URL. */
  function FreshSource(c: string, url: string, seen: set<string>): (r: Option<string>)
    ensures r.Some? ==> r.value != "" && r.value !in seen
  {
    if c == "" || StartsWith(c, "data:") then None
    else match Resolved(c, url)
      case Some(a) => if a != "" && a !in seen then Some(a) else None
      case None => None
  }

  /** The first candidate that yields a fresh source. */
  function ChooseSource(cands: seq<string>, url: string, seen: set<string>): (r: Option<string>)
    ensures r.Some? ==> r.value != "" && r.value !in seen
    ensures r.Some? ==> exists k :: 0 <= k < |cands| && FreshSource(cands[k], url, seen) == r
    ensures r.None? <==> forall k :: 0 <= k < |cands| ==> FreshSource(cands[k], url, seen).None?
    decreases |cands|
  {
    if cands == [] then None
    else if FreshSource(cands[0], url, seen).Some? then FreshSource(cands[0], url, seen)
    else
      var r := ChooseSource(cands[1..], url, seen);
      assert forall k :: 1 <= k < |cands| ==> cands[k] == cands[1..][k - 1];
      assert r.Some? ==> exists k :: 1 <= k < |cands| && FreshSource(cands[k], url, seen) == r;
      r
  }

  /** An all-digit dimension below 20 marks an icon. */
  predicate TooSmall(v: Option<string>)
  {
    v.Some? && IsDigits(v.value) && DigitsValue(v.value) < 20
  }

  function ImageOf(img: Node, src: string): (r: Image)
    ensures r.src == src && r.width == Attr(img, "width") && r.height == Attr(img, "height")
    ensures r.alt != "" && (r.alt == "Image" || r.alt == Strip(AttrText(img, "alt")))
  {
    var alt := Strip(AttrText(img, "alt"));
    Image(src, if alt != "" then alt else "Image", Attr(img, "width"), Attr(img, "height"))
  }

  /** One image element processed: the chosen source is recorded as seen even when the
      size check then drops the image. */
  function ImageStep(prev: (seq<Image>, set<string>), img: Node, url: string): (r: (seq<Image>, set<string>))
  {
    match ChooseSource(Candidates(img), url, prev.1)
    case None => prev
    case Some(src) =>
      if TooSmall(Attr(img, "width")) || TooSmall(Attr(img, "height")) then (prev.0, prev.1 + {src})
      else (prev.0 + [ImageOf(img, src)], prev.1 + {src})
  }

  predicate DistinctSources(images: seq<Image>)
  {
    forall i, j :: 0 <= i < j < |images| ==> images[i].src != images[j].src
  }

  /** Every kept image's source is in `seen_src`, and no source is kept twice. */
  predicate ImagesInvariant(r: (seq<Image>, set<string>))
  {
    (forall k :: 0 <= k < |r.0| ==> r.0[k].src in r.1) && DistinctSources(r.0)
  }

  /** Keeping an image whose source was not seen keeps the invariant. */
  lemma AppendImageKeeps(prev: (seq<Image>, set<string>), image: Image)
    requires ImagesInvariant(prev) && image.src !in prev.1
    ensures ImagesInvariant((prev.0 + [image], prev.1 + {image.src}))
  {
    var images := prev.0 + [image];
    forall i, j | 0 <= i < j < |images| ensures images[i].src != images[j].src {
      if j == |images| - 1 {
        assert images[i].src in prev.1;
      }
    }
  }

  lemma ImageStepKeeps(prev: (seq<Image>, set<string>), img: Node, url: string)
    requires ImagesInvariant(prev)
    ensures ImagesInvariant(ImageStep(prev, img, url))
  {
    var c := ChooseSource(Candidates(img), url, prev.1);
    if c.Some? && !TooSmall(Attr(img, "width")) && !TooSmall(Attr(img, "height")) {
      AppendImageKeeps(prev, ImageOf(img, c.value));
    }
  }

  function ImagesOf(imgs: seq<Located>, url: string): (r: (seq<Image>, set<string>))
    ensures ImagesInvariant(r)
    decreases |imgs|
  {
    if imgs == [] then ([], {})
    else
      var prev := ImagesOf(imgs[..|imgs| - 1], url);
      ImageStepKeeps(prev, imgs[|imgs| - 1].node, url);
      ImageStep(prev, imgs[|imgs| - 1].node, url)
  }

  lemma ImagesOfSnoc(imgs: seq<Located>, i: nat, url: string)
    requires i < |imgs|
    ensures ImagesOf(imgs[..i + 1], url) == ImageStep(ImagesOf(imgs[..i], url), imgs[i].node, url)
  {
    assert imgs[..i + 1][..i] == imgs[..i];
  }

  /** An image dropped by the size check (on its width or its height) still records its
      source, so a later image whose candidates all resolve to that source is dropped too:
      neither adds an image, and `seen_src` gains only the source. */
  lemma IconBlocksSource(prev: (seq<Image>, set<string>), icon: Node, img: Node, url: string, src: string)
    requires ChooseSource(Candidates(icon), url, prev.1) == Some(src)
    requires TooSmall(Attr(icon, "width")) || TooSmall(Attr(icon, "height"))
    requires forall k :: 0 <= k < |Candidates(img)| ==> Resolved(Candidates(img)[k], url) == Some(src)
    ensures ImageStep(prev, icon, url) == (prev.0, prev.1 + {src})
    ensures ImageStep(ImageStep(prev, icon, url), img, url) == (prev.0, prev.1 + {src})
  {
    var cands := Candidates(img);
    forall k | 0 <= k < |cands| ensures FreshSource(cands[k], url, prev.1 + {src}).None? {
      assert Resolved(cands[k], url) == Some(src);
    }
  }

  // ------------------------------------------------------------ the whole extraction

  /** The dictionary `extract` returns: {} for no document, otherwise one key per enabled
      section. */
  function ExtractOf(config: Sections, soup: Option<Node>, url: string): Extracted
  {
    match soup
    case None => NoData
    case Some(doc) =>
      Extracted(
        if config.title then Some(TitleOf(doc)) else None,
        if config.metaDescription then Some(MetaDescriptionOf(doc)) else None,
        if config.headings then Some(HeadingsOf(doc)) else None,
        if config.paragraphs then Some(ParagraphsOf(doc)) else None,
        if config.tables then Some(TablesOf(FindAll(Root(doc), {"table"}))) else None,
        if config.links then Some(LinksOf(Parser.Anchors(doc), url, config.domain).0) else None,
        if config.images then Some(ImagesOf(FindAll(Root(doc), {"img"}), url).0) else None)
  }

  /** No document gives the empty dictionary; otherwise a section is present exactly when
      its flag is set. */
  lemma ExtractKeys(config: Sections, soup: Option<Node>, url: string)
    ensures soup.None? ==> ExtractOf(config, soup, url) == NoData
    ensures soup.Some? ==> var d := ExtractOf(config, soup, url);
      && (d.title.Some? <==> config.title) && (d.metaDescription.Some? <==> config.metaDescription)
      && (d.headings.Some? <==> config.headings) && (d.paragraphs.Some? <==> config.paragraphs)
      && (d.tables.Some? <==> config.tables) && (d.links.Some? <==> config.links)
      && (d.images.Some? <==> config.images)
  {
  }

  class ContentFilter {
    const config: Sections

    constructor(config: Sections)
      ensures this.config == config
    {
      this.config := config;
    }

    /** `extract(soup, url)`; `url` is "" when none is given. */
    method Extract(soup: Option<Node>, url: string) returns (data: Extracted)
      ensures data == ExtractOf(config, soup, url)
    {
      if soup.None? {
        return NoData;
      }
      var doc := soup.value;
      var title, metaDescription := None, None;
      if config.title {
        title := Some(TitleOf(doc));
      }
      if config.metaDescription {
        metaDescription := Some(MetaDescriptionOf(doc));
      }
      var headings, paragraphs, tables, links, images := None, None, None, None, None;
      if config.headings {
        var h := CollectTexts(FindAll(Root(doc), HeadingTags), 0);
        headings := Some(h);
      }
      if config.paragraphs {
        var p := CollectTexts(FindAll(Root(doc), {"p"}), 20);
        paragraphs := Some(p);
      }
      if config.tables {
        var t := CollectTables(FindAll(Root(doc), {"table"}));
        tables := Some(t);
      }
      if config.links {
        var l := CollectLinks(Parser.Anchors(doc), url);
        links := Some(l);
      }
      if config.images {
        var i := CollectImages(FindAll(Root(doc), {"img"}), url);
        images := Some(i);
      }
      data := Extracted(title, metaDescription, headings, paragraphs, tables, links, images);
    }

    /** The headings and paragraphs loops. */
    method CollectTexts(ls: seq<Located>, minLen: nat) returns (texts: seq<string>)
      ensures texts == KeptTexts(ls, minLen)
    {
      ghost var ts := TextsOf(ls);
      texts := [];
      var i := 0;
      while i < |ls|
        invariant 0 <= i <= |ls|
        invariant texts == Longer(ts[..i], minLen)
      {
        var text := GetText(ls[i].node);
        assert text == ts[i];
        LongerStep(ts, i, minLen);
        if |text| > minLen {
          texts := texts + [text];
        }
        i := i + 1;
      }
      assert ts[..i] == ts;
    }

    /** The tables loop. */
    method CollectTables(ls: seq<Located>) returns (tables: seq<Table>)
      ensures tables == TablesOf(ls)
    {
      tables := [];
      var i := 0;
      while i < |ls|
        invariant 0 <= i <= |ls|
        invariant tables == TablesOf(ls[..i])
      {
        var table := ls[i];
        TablesOfSnoc(ls, i);
        if FindParent(table, "table").None? {
          var t := ReadTable(table);
          if t.rows != [] || |t.headers| > 1 {
            tables := tables + [t];
          }
        }
        i := i + 1;
      }
      assert ls[..i] == ls;
    }

    /** One table: headers, the start index, and the body-row loop. */
    method ReadTable(table: Located) returns (t: Table)
      ensures t == TableOf(table)
    {
      var headers: seq<string> := [];
      var thead := Find(table, {"thead"});
      if thead.Some? {
        headers := CellTexts(thead.value);
      }
      var allTrs := FindAll(table, {"tr"});
      if headers == [] {
        if allTrs != [] && (FindAll(allTrs[0], {"th"}) != [] || |allTrs| > 1) {
          headers := CellTexts(allTrs[0]);
        }
      }
      var start := 0;
      if headers != [] && thead.None? && allTrs != [] && FindAll(allTrs[0], CellTags) != [] {
        if CellTexts(allTrs[0]) == headers {
          start := 1;
        }
      }
      var rows := ReadRows(allTrs[start..]);
      t := Table(headers, rows);
    }

    /** The body-row loop of one table. */
    method ReadRows(trs: seq<Located>) returns (rows: seq<seq<string>>)
      ensures rows == RowsOf(trs)
    {
      rows := [];
      var i := 0;
      while i < |trs|
        invariant 0 <= i <= |trs|
        invariant rows == RowsOf(trs[..i])
      {
        var tr := trs[i];
        RowsStep(trs, i);
        if FindParent(tr, "thead").None? {
          var cells := CellTexts(tr);
          if HasText(cells) {
            rows := rows + [cells];
          }
        }
        i := i + 1;
      }
      assert trs[..i] == trs;
    }

    /** The links loop, with its `seen_links` set. */
    method CollectLinks(anchors: seq<Located>, url: string) returns (links: seq<Link>)
      ensures links == LinksOf(anchors, url, config.domain).0
    {
      links := [];
      var seen: set<string> := {};
      var i := 0;
      while i < |anchors|
        invariant 0 <= i <= |anchors|
        invariant (links, seen) == LinksOf(anchors[..i], url, config.domain)
      {
        var a := anchors[i];
        assert anchors[..i + 1][..i] == anchors[..i];
        var target := LinkTarget(a, url);
        if target.Some? && target.value !in seen {
          var href := target.value;
          seen := seen + {href};
          links := links + [LinkOf(a, href, url, config.domain)];
        }
        i := i + 1;
      }
      assert anchors[..i] == anchors;
    }

    /** The images loop, with its `seen_src` set. */
    method CollectImages(imgs: seq<Located>, url: string) returns (images: seq<Image>)
      ensures images == ImagesOf(imgs, url).0
    {
      images := [];
      var seen: set<string> := {};
      var i := 0;
      while i < |imgs|
        invariant 0 <= i <= |imgs|
        invariant (images, seen) == ImagesOf(imgs[..i], url)
      {
        var img := imgs[i].node;
        ghost var prev := (images, seen);
        ImagesOfSnoc(imgs, i, url);
        var finalSrc := FirstFreshSource(Candidates(img), url, seen);
        if finalSrc.Some? {
          seen := seen + {finalSrc.value};
          if !TooSmall(Attr(img, "width")) && !TooSmall(Attr(img, "height")) {
            images := images + [ImageOf(img, finalSrc.value)];
          }
        }
        assert (images, seen) == ImageStep(prev, img, url);
        i := i + 1;
      }
      assert imgs[..i] == imgs;
    }

    /** The candidate loop that breaks at the first fresh source. */
    method FirstFreshSource(cands: seq<string>, url: string, seen: set<string>) returns (r: Option<string>)
      ensures r == ChooseSource(cands, url, seen)
    {
      var i := 0;
      while i < |cands|
        invariant 0 <= i <= |cands|
        invariant ChooseSource(cands, url, seen) == ChooseSource(cands[i..], url, seen)
      {
        var c := FreshSource(cands[i], url, seen);
        if c.Some? {
          return c;
        }
        assert cands[i..][1..] == cands[i + 1..];
        i := i + 1;
      }
      return None;
    }
  }
}
