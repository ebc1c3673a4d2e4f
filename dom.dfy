/**
 * The parsed document the scraper works on, standing in for a BeautifulSoup tree: elements
 * with a tag name, an attribute map and children, and text leaves. A node is addressed
 * together with its ancestors (nearest first, ending at the document root), which is what
 * `find_parent` and `.parents` walk.
 */
module Dom {
  import opened Wrappers
  import opened Text

  datatype Node = Element(tag: string, attrs: map<string, string>, children: seq<Node>) | Leaf(text: string)

  /** A node found in a document, with the chain of elements above it, nearest first. */
  datatype Located = Located(node: Node, ancestors: seq<Node>)

  /** The root of a parsed document (the BeautifulSoup object itself). */
  function Root(doc: Node): Located { Located(doc, []) }

  /** The nodes below `cs` in document order (pre-order), each with its ancestors. */
  function Forest(cs: seq<Node>, anc: seq<Node>): (r: seq<Located>)
    ensures |r| >= |cs|
    decreases cs
  {
    if cs == [] then []
    else
      var n := cs[0];
      [Located(n, anc)] + (if n.Element? then Forest(n.children, [n] + anc) else []) + Forest(cs[1..], anc)
  }

  /** `.descendants`: every node strictly below `x`, in document order. */
  function Descendants(x: Located): seq<Located>
  {
    if x.node.Element? then Forest(x.node.children, [x.node] + x.ancestors) else []
  }

  predicate Named(x: Located, tags: set<string>)
  {
    x.node.Element? && x.node.tag in tags
  }

  /** `find_all(names)` over a sequence of located nodes: the elements whose tag is listed. */
  function Select(ls: seq<Located>, tags: set<string>): (r: seq<Located>)
    ensures |r| <= |ls|
    ensures forall l :: l in r <==> l in ls && Named(l, tags)
    decreases |ls|
  {
    if ls == [] then []
    else if Named(ls[|ls| - 1], tags) then Select(ls[..|ls| - 1], tags) + [ls[|ls| - 1]]
    else Select(ls[..|ls| - 1], tags)
  }

  /** The first node `find_all` keeps is the first node with one of the names. */
  lemma {:induction false} SelectFirst(ls: seq<Located>, tags: set<string>)
    requires Select(ls, tags) != []
    ensures exists i :: 0 <= i < |ls| && ls[i] == Select(ls, tags)[0] && forall j :: 0 <= j < i ==> !Named(ls[j], tags)
    decreases |ls|
  {
    var front := ls[..|ls| - 1];
    assert forall j :: 0 <= j < |front| ==> ls[j] == front[j];
    if Select(front, tags) == [] {
      assert forall j :: 0 <= j < |front| ==> front[j] in front;
      assert ls[|ls| - 1] == Select(ls, tags)[0];
    } else {
      SelectFirst(front, tags);
      assert Select(front, tags)[0] == Select(ls, tags)[0];
    }
  }

  /** `find_all` keeps the document order: selecting from two stretches of nodes is selecting
      from each in turn. */
  lemma {:induction false} SelectConcat(a: seq<Located>, b: seq<Located>, tags: set<string>)
    ensures Select(a + b, tags) == Select(a, tags) + Select(b, tags)
    decreases |b|
  {
    if b == [] {
      assert a + b == a;
    } else {
      var b' := b[..|b| - 1];
      assert (a + b)[..|a + b| - 1] == a + b';
      assert (a + b)[|a + b| - 1] == b[|b| - 1];
      SelectConcat(a, b', tags);
    }
  }

  /** A single node is kept exactly when it has one of the names. */
  lemma SelectOne(l: Located, tags: set<string>)
    ensures Select([l], tags) == if Named(l, tags) then [l] else []
  {
    assert [l][..0] == [];
  }

  /** `x.find_all(names)`: the descendant elements of `x` with one of the names, in document order. */
  function FindAll(x: Located, tags: set<string>): seq<Located>
  {
    Select(Descendants(x), tags)
  }

  /** `x.find(names)`: the first of them. */
  function Find(x: Located, tags: set<string>): (r: Option<Located>)
    ensures r.Some? ==> r.value in FindAll(x, tags) && Named(r.value, tags)
    ensures r.Some? ==> var ds := Descendants(x);
      exists i :: 0 <= i < |ds| && ds[i] == r.value && forall j :: 0 <= j < i ==> !Named(ds[j], tags)
    ensures r.None? <==> FindAll(x, tags) == []
  {
    var all := FindAll(x, tags);
    if all == [] then None
    else
      SelectFirst(Descendants(x), tags);
      Some(all[0])
  }

  /** `tag.get(key)`. */
  function Attr(n: Node, key: string): Option<string>
  {
    if n.Element? && key in n.attrs then Some(n.attrs[key]) else None
  }

  /** `tag.get(key)` read as a truthy value: absent and empty are alike. */
  function AttrText(n: Node, key: string): string
  {
    Attr(n, key).GetOr("")
  }

  /** `x.find_parent(name)`: the nearest ancestor element with the name. */
  function FindParent(x: Located, tag: string): Option<Node>
  {
    FirstNamed(x.ancestors, tag)
  }

  /** The nearest node of `ns` (listed nearest first) that is an element with the tag. */
  function FirstNamed(ns: seq<Node>, tag: string): (r: Option<Node>)
    ensures r.Some? ==> r.value in ns && r.value.Element? && r.value.tag == tag
    ensures r.Some? ==> exists i :: 0 <= i < |ns| && ns[i] == r.value && forall j :: 0 <= j < i ==> !(ns[j].Element? && ns[j].tag == tag)
    ensures r.None? <==> forall n :: n in ns ==> !(n.Element? && n.tag == tag)
    decreases |ns|
  {
    if ns == [] then None
    else if ns[0].Element? && ns[0].tag == tag then Some(ns[0])
    else
      var r := FirstNamed(ns[1..], tag);
      assert forall j :: 1 <= j < |ns| ==> ns[j] == ns[1..][j - 1];
      assert r.Some? ==> exists i :: 1 <= i < |ns| && ns[i] == r.value && forall j :: 0 <= j < i ==> !(ns[j].Element? && ns[j].tag == tag);
      r
  }

  /** `[p.name for p in x.parents]`. */
  function ParentTags(x: Located): seq<string>
  {
    seq(|x.ancestors|, i requires 0 <= i < |x.ancestors| => if x.ancestors[i].Element? then x.ancestors[i].tag else "")
  }

  lemma ParentTagsFindParent(x: Located, tag: string)
    requires tag != ""
    ensures tag in ParentTags(x) <==> FindParent(x, tag).Some?
  {
    var ts := ParentTags(x);
    if tag in ts {
      var i :| 0 <= i < |ts| && ts[i] == tag;
      assert x.ancestors[i] in x.ancestors;
    }
    if FindParent(x, tag).Some? {
      var n := FindParent(x, tag).value;
      var i :| 0 <= i < |x.ancestors| && x.ancestors[i] == n;
      assert ts[i] == tag;
    }
  }

  // ------------------------------------------------------------ text

  /** The text leaves below a list of nodes, in document order. */
  function StringsOf(cs: seq<Node>): seq<string>
    decreases cs
  {
    if cs == [] then []
    else (match cs[0] case Leaf(t) => [t] case Element(_, _, ch) => StringsOf(ch)) + StringsOf(cs[1..])
  }

  /** `.strings` of a node. */
  function Strings(n: Node): seq<string>
  {
    match n
    case Leaf(t) => [t]
    case Element(_, _, ch) => StringsOf(ch)
  }

  /** The strings stripped, with those that strip to nothing dropped (`strip=True`). */
  function Stripped(ss: seq<string>): (r: seq<string>)
    ensures forall p :: p in r ==> p != "" && !IsSpace(p[0]) && !IsSpace(p[|p| - 1])
    decreases |ss|
  {
    if ss == [] then []
    else (if Strip(ss[0]) == "" then [] else [Strip(ss[0])]) + Stripped(ss[1..])
  }

  lemma {:induction false} StrippedEmpty(ss: seq<string>)
    ensures Stripped(ss) == [] <==> forall k :: 0 <= k < |ss| ==> Strip(ss[k]) == ""
    decreases |ss|
  {
    if ss != [] {
      var head, tail := Strip(ss[0]), ss[1..];
      StrippedEmpty(tail);
      assert Stripped(ss) == (if head == "" then [] else [head]) + Stripped(tail);
      if forall k :: 0 <= k < |ss| ==> Strip(ss[k]) == "" {
        forall k | 0 <= k < |tail| ensures Strip(tail[k]) == "" {
          assert tail[k] == ss[k + 1];
        }
      }
      if Stripped(ss) == [] {
        assert head == "" && Stripped(tail) == [];
        forall k | 0 <= k < |ss| ensures Strip(ss[k]) == "" {
          if k > 0 {
            assert ss[k] == tail[k - 1];
          }
        }
      }
    }
  }

  /** `get_text(sep, strip=True)`. */
  function GetTextSep(n: Node, sep: string): string
  {
    JoinWith(sep, Stripped(Strings(n)))
  }

  /** `get_text(" ", strip=True)`, the form the extractors use. */
  function GetText(n: Node): string
  {
    GetTextSep(n, " ")
  }

  /** Whatever the separator, the text is empty exactly when every string is blank. */
  lemma GetTextEmpty(n: Node, sep: string)
    ensures GetTextSep(n, sep) == "" <==> forall k :: 0 <= k < |Strings(n)| ==> Strip(Strings(n)[k]) == ""
  {
    JoinNonEmpty(sep, Stripped(Strings(n)));
    StrippedEmpty(Strings(n));
  }

  /** Joining non-empty parts gives "" only for no parts. */
  lemma {:induction false} JoinNonEmpty(sep: string, parts: seq<string>)
    requires forall p :: p in parts ==> p != ""
    ensures JoinWith(sep, parts) == "" <==> parts == []
    decreases |parts|
  {
    if |parts| > 1 {
      assert parts[0] in parts;
      assert |JoinWith(sep, parts)| >= |parts[0]|;
    } else if |parts| == 1 {
      assert parts[0] in parts;
    }
  }

  /** The text of a node never begins or ends with whitespace when the separator does not. */
  lemma {:induction false} JoinStrippedEnds(sep: string, parts: seq<string>)
    requires forall p :: p in parts ==> p != "" && !IsSpace(p[0]) && !IsSpace(p[|p| - 1])
    ensures var t := JoinWith(sep, parts); t != "" ==> !IsSpace(t[0]) && !IsSpace(t[|t| - 1])
    decreases |parts|
  {
    if |parts| == 1 {
      assert parts[0] in parts;
    } else if |parts| > 1 {
      assert parts[0] in parts;
      var rest := JoinWith(sep, parts[1..]);
      JoinStrippedEnds(sep, parts[1..]);
      JoinNonEmpty(sep, parts[1..]);
      assert parts[1] in parts[1..];
      var t := parts[0] + sep + rest;
      assert t[0] == parts[0][0];
      assert t[|t| - 1] == rest[|rest| - 1];
    }
  }

  /** `get_text(" ", strip=True)` has no surrounding whitespace. */
  lemma GetTextTrimmed(n: Node)
    ensures var t := GetText(n); t != "" ==> !IsSpace(t[0]) && !IsSpace(t[|t| - 1])
  {
    JoinStrippedEnds(" ", Stripped(Strings(n)));
  }

  /** Every located node below `x` carries `x`'s node and ancestors at the end of its chain. */
  lemma {:induction false} ForestAncestors(cs: seq<Node>, anc: seq<Node>)
    ensures forall l :: l in Forest(cs, anc) ==> |l.ancestors| >= |anc| && l.ancestors[|l.ancestors| - |anc|..] == anc
    decreases cs
  {
    if cs != [] {
      var n := cs[0];
      ForestAncestors(cs[1..], anc);
      if n.Element? {
        ForestAncestors(n.children, [n] + anc);
        forall l | l in Forest(n.children, [n] + anc)
          ensures |l.ancestors| >= |anc| && l.ancestors[|l.ancestors| - |anc|..] == anc
        {
          var a := l.ancestors;
          assert a[|a| - |anc| - 1..] == [n] + anc;
          assert a[|a| - |anc|..] == a[|a| - |anc| - 1..][1..];
        }
      }
    }
  }
}
