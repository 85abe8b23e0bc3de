/**
 The crawler object: a FIFO queue of URLs it owns, the index it reports pages to,
 and the one-step `crawl` that polls the queue, fetches the page, consults or writes
 the index and queues the page's wiki links.
 */
module Crawler {
  import opened Wrappers
  import opened Document
  import opened Links
  import opened CrawlSpec

  /** The page index, seen as the set of URLs it holds. */
  class Index {
    var indexed: set<string>

    constructor (indexed: set<string>)
      ensures this.indexed == indexed
    {
      this.indexed := indexed;
    }

    /** True iff the page at `url` has been indexed. */
    method IsIndexed(url: string) returns (b: bool)
      ensures b <==> url in indexed
    {
      b := url in indexed;
    }

    /** Records the page at `url`; which words it holds is not modelled. */
    method IndexPage(url: string, paragraphs: Elements)
      modifies this
      ensures indexed == old(indexed) + {url}
    {
      indexed := indexed + {url};
    }
  }

  class WikiCrawler {
    /** Where the crawl started. */
    const source: string
    /** Where crawled pages are reported. */
    const index: Index
    /** The URLs still to be crawled, head first. */
    var queue: seq<string>

    /** The queue and the index together, as `Step` sees them. */
    ghost function State(): CrawlState
      reads this, index
    {
      CrawlState(queue, index.indexed)
    }

    /** A new crawler has exactly its source on the queue; the index is left as it is. */
    constructor (source: string, index: Index)
      ensures this.source == source && this.index == index
      ensures queue == [source]
      ensures index.indexed == old(index.indexed)
    {
      this.source := source;
      this.index := index;
      queue := [source];
    }

    /** The number of URLs on the queue. */
    method QueueSize() returns (n: nat)
      ensures n == |queue|
    {
      n := |queue|;
    }

    /** Polls one URL and crawls it as `Step` describes: in testing mode the page is
        indexed and its links queued; otherwise an indexed page gives null and a new
        page has its links queued without being indexed. */
    method Crawl(testing: bool, fetch: Fetcher) returns (r: CrawlResult)
      modifies this, index
      ensures State() == Step(old(State()), testing, fetch).state
      ensures r == Step(old(State()), testing, fetch).result
    {
      if queue == [] {
        return Null;
      }
      var url := queue[0];
      queue := queue[1..];
      var fetched := fetch(url);
      if fetched.None? {
        return IOException;
      }
      var paragraphs := fetched.value;
      if testing {
        index.IndexPage(url, paragraphs);
        QueueInternalLinks(paragraphs);
      } else {
        var seen := index.IsIndexed(url);
        if seen {
          return Null;
        }
        QueueInternalLinks(paragraphs);
      }
      r := Url(url);
    }

    /** Appends, paragraph by paragraph and node by node, the absolute URL of every
        element whose link starts with "/wiki/"; the queue already there is kept. */
    method QueueInternalLinks(paragraphs: Elements)
      modifies this
      ensures queue == old(queue) + ExtractLinks(paragraphs)
    {
      for i := 0 to |paragraphs|
        invariant queue == old(queue) + ExtractLinks(paragraphs[..i])
      {
        var paragraph := paragraphs[i];
        // the parenthesis count starts at zero and is never changed
        var parenthesisCount := 0;
        ghost var before := queue;
        for j := 0 to |paragraph|
          invariant queue == before + ParagraphLinks(paragraph[..j])
        {
          var node := paragraph[j];
          ParagraphLinksStep(paragraph, j);
          if node.ElementNode? {
            var link := node.elem.href;
            var elem := node.elem;
            if IsValidLink(elem) && parenthesisCount == 0 {
              Enqueue(link);
            }
          }
        }
        assert paragraph[..|paragraph|] == paragraph;
        ExtractLinksStep(paragraphs, i);
      }
      assert paragraphs[..|paragraphs|] == paragraphs;
    }

    /** Appends the absolute URL of `link`, and nothing else, to the queue. */
    method Enqueue(link: string)
      modifies this
      ensures queue == old(queue) + [Absolute(link)]
    {
      var url := WIKI_BASE_URL + link;
      queue := queue + [url];
    }
  }
}
