/**
 The shape of a fetched Wikipedia page, as the crawler sees it: the page is the
 list of its paragraph elements, and each paragraph is the list of the nodes that
 a depth-first walk over it visits, in that order.
 */
module Document {

  /** An HTML element; only its `href` attribute matters to the crawler.
      An element without an `href` attribute has the empty string here. */
  datatype Element = Element(href: string)

  /** A node met while walking a paragraph: an element, or any other node. `TextNode`
      stands for every node that is not an element (text runs, comments, data nodes);
      none of them passes the element test, so none contributes a link. */
  datatype Node = TextNode(text: string) | ElementNode(elem: Element)

  /** The nodes of one paragraph in iteration order. */
  type Paragraph = seq<Node>

  /** The paragraphs of one page, in document order. */
  type Elements = seq<Paragraph>
}
