/**
 Which links the crawler follows and what it puts on its queue for them.
 A link is followed when its `href` starts with "/wiki/"; the queued URL is
 the site origin "https://en.wikipedia.org" followed by the `href`.
 */
module Links {
  import opened Document

  /** The origin every followed link is resolved against. */
  const WIKI_BASE_URL: string := "https://en.wikipedia.org"

  /** The prefix that marks a link to an article of the same wiki. */
  const WIKI_PREFIX: string := "/wiki/"

  /** True iff `link` starts with "/wiki/" (Java's `startsWith`). */
  function IsLinkWikiPage(link: string): (r: bool)
    ensures r <==> |link| >= |WIKI_PREFIX| && link[..|WIKI_PREFIX|] == WIKI_PREFIX
  {
    WIKI_PREFIX <= link
  }

  /** An element is a valid link iff its `href` is a wiki page link. */
  function IsValidLink(elem: Element): (r: bool)
    ensures r <==> |elem.href| >= |WIKI_PREFIX| && elem.href[..|WIKI_PREFIX|] == WIKI_PREFIX
  {
    IsLinkWikiPage(elem.href)
  }

  /** The absolute URL queued for a followed `href`: the origin, then the `href` unchanged. */
  function Absolute(href: string): (url: string)
    ensures |url| == |WIKI_BASE_URL| + |href|
    ensures url[..|WIKI_BASE_URL|] == WIKI_BASE_URL && url[|WIKI_BASE_URL|..] == href
  {
    WIKI_BASE_URL + href
  }

  /** The shape of every URL the crawler puts on its queue for a link. */
  predicate IsWikiUrl(url: string)
  {
    WIKI_BASE_URL + WIKI_PREFIX <= url
  }

  /** The URLs one node contributes: one for an element with a wiki link, none otherwise. */
  function NodeLinks(node: Node): (r: seq<string>)
    ensures |r| <= 1
    ensures r != [] <==> node.ElementNode? && IsValidLink(node.elem)
    ensures r != [] ==> r[0] == Absolute(node.elem.href)
  {
    match node
    case TextNode(_) => []
    case ElementNode(elem) => if IsValidLink(elem) then [Absolute(elem.href)] else []
  }

  /** The URLs queued for one paragraph, in node order. */
  function ParagraphLinks(paragraph: Paragraph): seq<string>
  {
    if paragraph == [] then [] else NodeLinks(paragraph[0]) + ParagraphLinks(paragraph[1..])
  }

  /** The number of nodes on a page. */
  function NodeCount(paragraphs: Elements): nat
  {
    if paragraphs == [] then 0 else |paragraphs[0]| + NodeCount(paragraphs[1..])
  }

  /** The URLs queued for a whole page, paragraph by paragraph. */
  function ExtractLinks(paragraphs: Elements): seq<string>
  {
    if paragraphs == [] then [] else ParagraphLinks(paragraphs[0]) + ExtractLinks(paragraphs[1..])
  }

  /** Exactly the links that start with "/wiki/" are wiki page links, whatever follows the prefix. */
  lemma WikiLinkShape(link: string)
    ensures IsLinkWikiPage(link) <==> exists rest :: link == WIKI_PREFIX + rest
  {
    if IsLinkWikiPage(link) {
      assert link == WIKI_PREFIX + link[|WIKI_PREFIX|..];
    }
  }

  /** The URL queued for a wiki link is the origin, then "/wiki/", then the rest of the link. */
  lemma AbsoluteOfWikiLink(href: string)
    requires IsLinkWikiPage(href)
    ensures IsWikiUrl(Absolute(href))
  {
    assert Absolute(href)[..|WIKI_BASE_URL + WIKI_PREFIX|] == WIKI_BASE_URL + WIKI_PREFIX;
  }

  /** Different links are queued as different URLs. */
  lemma AbsoluteIsInjective(a: string, b: string)
    requires Absolute(a) == Absolute(b)
    ensures a == b
  {
    assert a == Absolute(a)[|WIKI_BASE_URL|..];
    assert b == Absolute(b)[|WIKI_BASE_URL|..];
  }

  /** Appending one node to a paragraph appends exactly that node's contribution. */
  lemma {:induction false} ParagraphLinksSnoc(paragraph: Paragraph, node: Node)
    ensures ParagraphLinks(paragraph + [node]) == ParagraphLinks(paragraph) + NodeLinks(node)
  {
    if paragraph != [] {
      assert (paragraph + [node])[1..] == paragraph[1..] + [node];
      ParagraphLinksSnoc(paragraph[1..], node);
    }
  }

  /** Links of a concatenation of paragraphs are the concatenation of their links. */
  lemma {:induction false} ParagraphLinksAppend(p1: Paragraph, p2: Paragraph)
    ensures ParagraphLinks(p1 + p2) == ParagraphLinks(p1) + ParagraphLinks(p2)
  {
    if p1 == [] {
      assert p1 + p2 == p2;
    } else {
      assert (p1 + p2)[0] == p1[0];
      assert (p1 + p2)[1..] == p1[1..] + p2;
      ParagraphLinksAppend(p1[1..], p2);
    }
  }

  /** Appending one paragraph to a page appends exactly that paragraph's links. */
  lemma {:induction false} ExtractLinksSnoc(paragraphs: Elements, paragraph: Paragraph)
    ensures ExtractLinks(paragraphs + [paragraph]) == ExtractLinks(paragraphs) + ParagraphLinks(paragraph)
  {
    if paragraphs != [] {
      assert (paragraphs + [paragraph])[1..] == paragraphs[1..] + [paragraph];
      ExtractLinksSnoc(paragraphs[1..], paragraph);
    }
  }

  /** Walking one more node of a paragraph appends exactly that node's contribution. */
  lemma ParagraphLinksStep(paragraph: Paragraph, j: nat)
    requires j < |paragraph|
    ensures ParagraphLinks(paragraph[..j + 1]) == ParagraphLinks(paragraph[..j]) + NodeLinks(paragraph[j])
  {
    assert paragraph[..j + 1] == paragraph[..j] + [paragraph[j]];
    ParagraphLinksSnoc(paragraph[..j], paragraph[j]);
  }

  /** Walking one more paragraph of a page appends exactly that paragraph's links. */
  lemma ExtractLinksStep(paragraphs: Elements, i: nat)
    requires i < |paragraphs|
    ensures ExtractLinks(paragraphs[..i + 1]) == ExtractLinks(paragraphs[..i]) + ParagraphLinks(paragraphs[i])
  {
    assert paragraphs[..i + 1] == paragraphs[..i] + [paragraphs[i]];
    ExtractLinksSnoc(paragraphs[..i], paragraphs[i]);
  }

  /** Links of a concatenation of pages are the concatenation of their links. */
  lemma {:induction false} ExtractLinksAppend(d1: Elements, d2: Elements)
    ensures ExtractLinks(d1 + d2) == ExtractLinks(d1) + ExtractLinks(d2)
  {
    if d1 == [] {
      assert d1 + d2 == d2;
    } else {
      assert (d1 + d2)[0] == d1[0];
      assert (d1 + d2)[1..] == d1[1..] + d2;
      ExtractLinksAppend(d1[1..], d2);
    }
  }

  /** A URL is queued for a paragraph iff some element node of it carries a wiki link
      whose absolute form is that URL. */
  lemma {:induction false} ParagraphLinksMembership(paragraph: Paragraph, url: string)
    ensures url in ParagraphLinks(paragraph) <==>
      exists j :: 0 <= j < |paragraph| && paragraph[j].ElementNode? &&
        IsValidLink(paragraph[j].elem) && url == Absolute(paragraph[j].elem.href)
  {
    if paragraph != [] {
      ParagraphLinksMembership(paragraph[1..], url);
      if url in ParagraphLinks(paragraph[1..]) {
        var j :| 0 <= j < |paragraph[1..]| && paragraph[1..][j].ElementNode? &&
          IsValidLink(paragraph[1..][j].elem) && url == Absolute(paragraph[1..][j].elem.href);
        assert paragraph[j + 1] == paragraph[1..][j];
      }
      if exists j :: 0 <= j < |paragraph| && paragraph[j].ElementNode? &&
          IsValidLink(paragraph[j].elem) && url == Absolute(paragraph[j].elem.href) {
        var j :| 0 <= j < |paragraph| && paragraph[j].ElementNode? &&
          IsValidLink(paragraph[j].elem) && url == Absolute(paragraph[j].elem.href);
        if j > 0 {
          assert paragraph[1..][j - 1] == paragraph[j];
        }
      }
    }
  }

  /** A URL is queued for a page iff some element node of some paragraph carries a wiki
      link whose absolute form is that URL. */
  lemma {:induction false} ExtractLinksMembership(paragraphs: Elements, url: string)
    ensures url in ExtractLinks(paragraphs) <==>
      exists i, j :: 0 <= i < |paragraphs| && 0 <= j < |paragraphs[i]| &&
        paragraphs[i][j].ElementNode? && IsValidLink(paragraphs[i][j].elem) &&
        url == Absolute(paragraphs[i][j].elem.href)
  {
    if paragraphs != [] {
      ParagraphLinksMembership(paragraphs[0], url);
      ExtractLinksMembership(paragraphs[1..], url);
      if url in ExtractLinks(paragraphs[1..]) {
        var i, j :| 0 <= i < |paragraphs[1..]| && 0 <= j < |paragraphs[1..][i]| &&
          paragraphs[1..][i][j].ElementNode? && IsValidLink(paragraphs[1..][i][j].elem) &&
          url == Absolute(paragraphs[1..][i][j].elem.href);
        assert paragraphs[i + 1] == paragraphs[1..][i];
      }
      if exists i, j :: 0 <= i < |paragraphs| && 0 <= j < |paragraphs[i]| &&
          paragraphs[i][j].ElementNode? && IsValidLink(paragraphs[i][j].elem) &&
          url == Absolute(paragraphs[i][j].elem.href) {
        var i, j :| 0 <= i < |paragraphs| && 0 <= j < |paragraphs[i]| &&
          paragraphs[i][j].ElementNode? && IsValidLink(paragraphs[i][j].elem) &&
          url == Absolute(paragraphs[i][j].elem.href);
        if i > 0 {
          assert paragraphs[1..][i - 1] == paragraphs[i];
        }
      }
    }
  }

  /** Every URL queued for a paragraph has the wiki URL shape. */
  lemma {:induction false} ParagraphLinksAreWikiUrls(paragraph: Paragraph)
    ensures forall k :: 0 <= k < |ParagraphLinks(paragraph)| ==> IsWikiUrl(ParagraphLinks(paragraph)[k])
  {
    if paragraph != [] {
      ParagraphLinksAreWikiUrls(paragraph[1..]);
      var node := paragraph[0];
      if node.ElementNode? && IsValidLink(node.elem) {
        AbsoluteOfWikiLink(node.elem.href);
      }
    }
  }

  /** Every URL queued for a page has the wiki URL shape. */
  lemma {:induction false} ExtractLinksAreWikiUrls(paragraphs: Elements)
    ensures forall k :: 0 <= k < |ExtractLinks(paragraphs)| ==> IsWikiUrl(ExtractLinks(paragraphs)[k])
  {
    if paragraphs != [] {
      ParagraphLinksAreWikiUrls(paragraphs[0]);
      ExtractLinksAreWikiUrls(paragraphs[1..]);
    }
  }

  /** A paragraph queues at most one URL per node. */
  lemma {:induction false} ParagraphLinksAtMostOnePerNode(paragraph: Paragraph)
    ensures |ParagraphLinks(paragraph)| <= |paragraph|
  {
    if paragraph != [] {
      ParagraphLinksAtMostOnePerNode(paragraph[1..]);
    }
  }

  /** A page queues at most one URL per node over all of its paragraphs. */
  lemma {:induction false} ExtractLinksAtMostOnePerNode(paragraphs: Elements)
    ensures |ExtractLinks(paragraphs)| <= NodeCount(paragraphs)
  {
    if paragraphs != [] {
      ParagraphLinksAtMostOnePerNode(paragraphs[0]);
      ExtractLinksAtMostOnePerNode(paragraphs[1..]);
    }
  }

  /** A page without element nodes queues nothing. */
  lemma {:induction false} TextOnlyPageQueuesNothing(paragraphs: Elements)
    requires forall i, j :: 0 <= i < |paragraphs| && 0 <= j < |paragraphs[i]| ==> paragraphs[i][j].TextNode?
    ensures ExtractLinks(paragraphs) == []
  {
    if ExtractLinks(paragraphs) != [] {
      ExtractLinksMembership(paragraphs, ExtractLinks(paragraphs)[0]);
    }
  }

  /** An element whose link is "/wiki/" followed by anything queues exactly its absolute URL. */
  lemma WikiNodeLinks(rest: string)
    ensures NodeLinks(ElementNode(Element(WIKI_PREFIX + rest))) == [Absolute(WIKI_PREFIX + rest)]
  {
    assert (WIKI_PREFIX + rest)[..|WIKI_PREFIX|] == WIKI_PREFIX;
    assert IsValidLink(Element(WIKI_PREFIX + rest));
  }

  /** Link classification on sample links: article and special pages are
      followed, an external URL, a fragment and a missing `href` are not. */
  lemma LinkClassificationExamples()
    ensures IsLinkWikiPage("/wiki/Topic")
    ensures IsLinkWikiPage("/wiki/Special:Random")
    ensures !IsLinkWikiPage("https://example.com/x")
    ensures !IsLinkWikiPage("#section")
    ensures !IsLinkWikiPage("")
    ensures Absolute("/wiki/Go") == "https://en.wikipedia.org/wiki/Go"
  {
    assert "https://example.com/x"[0] != WIKI_PREFIX[0];
  }

  /** A link inside a parenthetical aside is queued like any other: the parenthesis
      counter of the crawler never leaves zero. */
  lemma ParentheticalLinkIsQueued()
    ensures ParagraphLinks([TextNode("text (see "), ElementNode(Element("/wiki/Foo")),
                            TextNode(") more text "), ElementNode(Element("/wiki/Bar"))])
         == ["https://en.wikipedia.org/wiki/Foo", "https://en.wikipedia.org/wiki/Bar"]
  {
    var foo, bar := ElementNode(Element("/wiki/Foo")), ElementNode(Element("/wiki/Bar"));
    var aside := [TextNode("text (see "), foo, TextNode(") more text "), bar];
    assert "/wiki/Foo" == WIKI_PREFIX + "Foo";
    WikiNodeLinks("Foo");
    assert "/wiki/Bar" == WIKI_PREFIX + "Bar";
    WikiNodeLinks("Bar");
    var urlFoo, urlBar := Absolute("/wiki/Foo"), Absolute("/wiki/Bar");
    assert urlFoo == "https://en.wikipedia.org/wiki/Foo";
    assert urlBar == "https://en.wikipedia.org/wiki/Bar";
    assert ParagraphLinks(aside[3..]) == [urlBar] by {
      assert aside[3..][1..] == [];
    }
    assert ParagraphLinks(aside[2..]) == [urlBar] by {
      assert aside[2..][1..] == aside[3..];
    }
    assert ParagraphLinks(aside[1..]) == [urlFoo, urlBar] by {
      assert aside[1..][1..] == aside[2..];
    }
  }

  /** A link that appears twice is queued twice, and a link outside "/wiki/" is not queued. */
  lemma DuplicateLinksAreQueued()
    ensures ParagraphLinks([ElementNode(Element("/wiki/B")), ElementNode(Element("/wiki/B")),
                            ElementNode(Element("/external/C"))])
         == ["https://en.wikipedia.org/wiki/B", "https://en.wikipedia.org/wiki/B"]
  {
    var b, c := ElementNode(Element("/wiki/B")), ElementNode(Element("/external/C"));
    assert "/wiki/B" == WIKI_PREFIX + "B";
    WikiNodeLinks("B");
    var urlB := Absolute("/wiki/B");
    assert urlB == "https://en.wikipedia.org/wiki/B";
    assert !IsLinkWikiPage("/external/C") by {
      assert "/external/C"[1] != WIKI_PREFIX[1];
    }
    ParagraphLinksSnoc([], b);
    assert [] + [b] == [b];
    ParagraphLinksSnoc([b], b);
    assert [b] + [b] == [b, b];
    ParagraphLinksSnoc([b, b], c);
    assert [b, b] + [c] == [b, b, c];
  }
}
