/**
 * `scraper/parser.py`: turning a response body into a document, and collecting the raw
 * `href` values of its anchors. The HTML parsers themselves are parameters: `lxml` may
 * fail (None), and the `html.parser` fallback always yields a document.
 */
module Parser {
  import opened Wrappers
  import opened Dom

  /** `Parser.parse`: None for an empty body, otherwise the lxml tree or, when lxml raises,
      the html.parser tree. */
  function Parse(html: string, lxml: string -> Option<Node>, htmlParser: string -> Node): (r: Option<Node>)
    ensures r.None? <==> html == ""
    ensures html != "" && lxml(html).Some? ==> r == lxml(html)
    ensures html != "" && lxml(html).None? ==> r == Some(htmlParser(html))
  {
    if html == "" then None
    else match lxml(html)
      case Some(doc) => Some(doc)
      case None => Some(htmlParser(html))
  }

  /** An anchor with an `href` attribute: what `find_all('a', href=True)` selects. */
  predicate IsLinkAnchor(l: Located)
  {
    l.node.Element? && l.node.tag == "a" && "href" in l.node.attrs
  }

  /** The anchors with an `href` attribute, in document order. */
  function Anchors(soup: Node): (r: seq<Located>)
    ensures forall l :: l in r <==> l in Descendants(Root(soup)) && IsLinkAnchor(l)
  {
    AnchorsOf(Descendants(Root(soup)))
  }

  function AnchorsOf(ls: seq<Located>): (r: seq<Located>)
    ensures forall l :: l in r <==> l in ls && IsLinkAnchor(l)
    decreases |ls|
  {
    if ls == [] then []
    else AnchorsOf(ls[..|ls| - 1]) + (if IsLinkAnchor(ls[|ls| - 1]) then [ls[|ls| - 1]] else [])
  }

  /** An anchor's `href` value. */
  function Href(l: Located): string
  {
    AttrText(l.node, "href")
  }

  /** The set of raw `href` values of a document's anchors. */
  ghost function RawLinks(soup: Node): set<string>
  {
    set l | l in Anchors(soup) :: Href(l)
  }

  /** `Parser.extract_links(soup, base_url)`: the hrefs, verbatim, as a set; `base_url` is
      not used. */
  method ExtractLinks(soup: Option<Node>, baseUrl: string) returns (links: set<string>)
    ensures soup.None? ==> links == {}
    ensures soup.Some? ==> links == RawLinks(soup.value)
    ensures soup.Some? ==> forall h :: h in links <==> exists l :: l in Descendants(Root(soup.value)) && IsLinkAnchor(l) && Href(l) == h
  {
    links := {};
    if soup.None? {
      return;
    }
    var anchors := Anchors(soup.value);
    var i := 0;
    while i < |anchors|
      invariant 0 <= i <= |anchors|
      invariant links == set l | l in anchors[..i] :: Href(l)
    {
      assert anchors[i] in anchors;
      links := links + {Href(anchors[i])};
      assert anchors[..i + 1] == anchors[..i] + [anchors[i]];
      i := i + 1;
    }
    assert anchors[..i] == anchors;
    forall h | h in links ensures exists l :: l in Descendants(Root(soup.value)) && IsLinkAnchor(l) && Href(l) == h {
      var l :| l in anchors && Href(l) == h;
    }
    forall h | exists l :: l in Descendants(Root(soup.value)) && IsLinkAnchor(l) && Href(l) == h
      ensures h in links
    {
      var l :| l in Descendants(Root(soup.value)) && IsLinkAnchor(l) && Href(l) == h;
      assert l in anchors;
    }
  }
}
