# WikiCrawler crawl core, modelled in Dafny

This project models the crawl core of a small Wikipedia crawler, the class
`WikiCrawler`. The crawler owns a FIFO queue of URL strings that starts with the
source page. Each call of `crawl(testing)` does the following:

1. It polls the head of the queue. On an empty queue it returns null.
2. It reads that page's paragraphs.
3. In testing mode it first writes the page to the index and then queues the page's
   internal links.
4. In production mode it returns null if the index already holds the page.
   Otherwise it queues the page's internal links but does not write the page to the
   index.

Queuing the internal links walks every paragraph node by node. For each element
whose `href` starts with `/wiki/`, it appends `https://en.wikipedia.org` followed by
the `href` to the queue. The queue keeps duplicates.

Files and modules:

- `document.dfy` (`Document`): a page is a sequence of paragraphs. Each paragraph is
  the sequence of nodes a depth-first walk visits. A node is an `ElementNode` or a
  `TextNode`. `TextNode` stands for every node that is not an element, such as text
  runs, comments and data nodes. None of these passes the element test, so none
  contributes a link. A missing `href` attribute is the empty string.
- `links.dfy` (`Links`): the link predicates `IsLinkWikiPage` and `IsValidLink`, and
  the base URL. `ExtractLinks` is the reference definition of what one page adds to
  the queue. The lemmas here cover its order, its concatenation laws, exactly which
  URLs it contains, and their shape.
- `crawl_spec.dfy` (`CrawlSpec`): `Step` is one call of `crawl` as a function on the
  queue and the set of indexed URLs. `Run` is a sequence of such calls. The lemmas
  here cover every branch of a step, FIFO order, the stability of an empty queue,
  and how the index changes over many calls.
- `crawler.dfy` (`Crawler`): the imperative model. `WikiCrawler` is a class with a
  `seq<string>` queue that its methods reassign. `Index` is the index object, seen as
  a set of URLs that `IndexPage` inserts into. `Crawl` is proved to do exactly what
  `Step` says. `QueueInternalLinks` is a nested loop proved to append exactly
  `ExtractLinks`.

Collaborators the core only calls:

- The page fetcher is a parameter of `Crawl`. It is a total function from a URL to
  `Some(paragraphs)`, or to `None` when reading the page throws an `IOException`.
  In the source the fetch happens after the poll and before the index is asked. So
  a failed fetch still consumes the head, and `Crawl` then returns `IOException`.
- The index is modelled only as the set of URLs it holds.

Two points about what the code does and does not do:

- The intended rule is that links inside parentheses are skipped. In the code the
  counter `parenthesis_count` starts at 0 and is never changed
  (`WikiCrawler.java:90`). Its guard at `:97` therefore always holds, and no link is
  skipped. `Links.ParentheticalLinkIsQueued` states this for the example paragraph
  `text (see /wiki/Foo) more text /wiki/Bar`: both links are queued.
- `crawl(testing=true)` is not a priming step. It polls the head like production
  mode does, and then indexes the page. The only priming without a poll is `main`'s
  direct call of `queueInternalLinks` on the seed page (`WikiCrawler.java:127-129`).
  That call is left out together with `main`, and
  `Crawler.WikiCrawler.QueueInternalLinks` models what it does.

## Model

| member | source | states |
|---|---|---|
| `Links.IsLinkWikiPage` | javacs-lab11/src/com/flatironschool/javacs/WikiCrawler.java:114-117 | true exactly when the link is at least as long as "/wiki/" and begins with it |
| `Links.IsValidLink` | javacs-lab11/src/com/flatironschool/javacs/WikiCrawler.java:109-112 | an element is followed exactly when its href begins with "/wiki/" |
| `Links.Absolute` | javacs-lab11/src/com/flatironschool/javacs/WikiCrawler.java:104-107 | the queued URL is exactly as long as the origin plus the href, starts with "https://en.wikipedia.org", and the rest is the href unchanged |
| `Links.NodeLinks` | javacs-lab11/src/com/flatironschool/javacs/WikiCrawler.java:93-99 | a node contributes at most one URL; it contributes one exactly when it is an element with a "/wiki/" href, and that URL is the href's absolute form; text and other non-element nodes contribute nothing |
| `Links.ParagraphLinksAtMostOnePerNode` | javacs-lab11/src/com/flatironschool/javacs/WikiCrawler.java:92-101 | a paragraph queues at most one URL per node |
| `Links.ExtractLinksAtMostOnePerNode` | javacs-lab11/src/com/flatironschool/javacs/WikiCrawler.java:87-103 | a page queues at most one URL per node over all of its paragraphs |
| `Links.WikiLinkShape` | javacs-lab11/src/com/flatironschool/javacs/WikiCrawler.java:114-117 | a link is a wiki page link iff it is "/wiki/" followed by some string |
| `Links.AbsoluteOfWikiLink` | javacs-lab11/src/com/flatironschool/javacs/WikiCrawler.java:104-107 | the queued URL of a wiki link begins with "https://en.wikipedia.org/wiki/" |
| `Links.AbsoluteIsInjective` | javacs-lab11/src/com/flatironschool/javacs/WikiCrawler.java:104-107 | two links that are queued as the same URL are the same link |
| `Links.WikiNodeLinks` | javacs-lab11/src/com/flatironschool/javacs/WikiCrawler.java:93-99 | an element whose href is "/wiki/" followed by anything contributes exactly one URL, its absolute form |
| `Links.ParagraphLinksSnoc` | javacs-lab11/src/com/flatironschool/javacs/WikiCrawler.java:92-100 | visiting one more node appends exactly that node's contribution, as `NodeLinks` gives it |
| `Links.ParagraphLinksAppend` | javacs-lab11/src/com/flatironschool/javacs/WikiCrawler.java:92-101 | the links of two node runs in a row are the first run's links followed by the second's, so node order is kept |
| `Links.ExtractLinksSnoc` | javacs-lab11/src/com/flatironschool/javacs/WikiCrawler.java:88-102 | visiting one more paragraph appends exactly that paragraph's links |
| `Links.ExtractLinksAppend` | javacs-lab11/src/com/flatironschool/javacs/WikiCrawler.java:87-103 | the links of two runs of paragraphs are the first run's links followed by the second's, so paragraph order is kept |
| `Links.ParagraphLinksMembership` | javacs-lab11/src/com/flatironschool/javacs/WikiCrawler.java:92-101 | a URL is queued for a paragraph iff some element node of that paragraph has a "/wiki/" href whose absolute form is that URL |
| `Links.ExtractLinksMembership` | javacs-lab11/src/com/flatironschool/javacs/WikiCrawler.java:87-103 | a URL is queued for a page iff some element node of some paragraph has a "/wiki/" href whose absolute form is that URL |
| `Links.ParagraphLinksAreWikiUrls` | javacs-lab11/src/com/flatironschool/javacs/WikiCrawler.java:92-107 | every URL queued for a paragraph begins with "https://en.wikipedia.org/wiki/" |
| `Links.ExtractLinksAreWikiUrls` | javacs-lab11/src/com/flatironschool/javacs/WikiCrawler.java:87-107 | every URL queued for a page begins with "https://en.wikipedia.org/wiki/" |
| `Links.TextOnlyPageQueuesNothing` | javacs-lab11/src/com/flatironschool/javacs/WikiCrawler.java:92-93 | a page made only of text nodes queues nothing |
| `Links.LinkClassificationExamples` | javacs-lab11/src/com/flatironschool/javacs/WikiCrawler.java:104-117 | "/wiki/Topic" and "/wiki/Special:Random" are followed, while an external URL, a fragment and a missing href are not; "/wiki/Go" becomes "https://en.wikipedia.org/wiki/Go" |
| `Links.ParentheticalLinkIsQueued` | javacs-lab11/src/com/flatironschool/javacs/WikiCrawler.java:90-99 | a wiki link inside parenthesised text is queued like the one after it, because the parenthesis count stays 0 |
| `Links.DuplicateLinksAreQueued` | javacs-lab11/src/com/flatironschool/javacs/WikiCrawler.java:92-106 | a wiki link appearing twice is queued twice, and "/external/C" is not queued |
| `CrawlSpec.Step` | javacs-lab11/src/com/flatironschool/javacs/WikiCrawler.java:61-79 | after one crawl, the rest of the old queue is still at the front in order; a returned URL is the polled head; the index only gains the head, and only in testing mode; every newly queued URL is a wiki URL |
| `CrawlSpec.EmptyQueueStep` | javacs-lab11/src/com/flatironschool/javacs/WikiCrawler.java:62-63 | on an empty queue, crawl returns null and changes neither the queue nor the index, in either mode |
| `CrawlSpec.TestingStep` | javacs-lab11/src/com/flatironschool/javacs/WikiCrawler.java:62-78 | in testing mode, crawl returns the head, adds it to the index, and leaves the old tail followed by the page's extracted links |
| `CrawlSpec.ProductionStepOnIndexed` | javacs-lab11/src/com/flatironschool/javacs/WikiCrawler.java:72-75 | in production mode with the head already indexed, crawl returns null, leaves exactly the old tail and leaves the index unchanged |
| `CrawlSpec.ProductionStepOnNew` | javacs-lab11/src/com/flatironschool/javacs/WikiCrawler.java:72-78 | in production mode with the head not yet indexed, crawl returns the head, leaves the old tail followed by the extracted links, and leaves the index unchanged |
| `CrawlSpec.FailedFetchStep` | javacs-lab11/src/com/flatironschool/javacs/WikiCrawler.java:62-65 | when reading the page throws, the head is already polled, nothing is queued or indexed, and the call raises IOException, in either mode |
| `CrawlSpec.EmptyQueueIsStable` | javacs-lab11/src/com/flatironschool/javacs/WikiCrawler.java:62-63 | any number of crawls on an empty queue all return null and leave the state unchanged |
| `CrawlSpec.RunIsFifo` | javacs-lab11/src/com/flatironschool/javacs/WikiCrawler.java:62 | n crawls poll the first n queued URLs in order: each returned URL is the one at its position, and the rest of the old queue is still at the front |
| `CrawlSpec.ProductionNeverIndexes` | javacs-lab11/src/com/flatironschool/javacs/WikiCrawler.java:72-77 | any number of production-mode crawls leave the index unchanged |
| `CrawlSpec.IndexGainsOnlyTestedUrls` | javacs-lab11/src/com/flatironschool/javacs/WikiCrawler.java:67-68 | every URL the index gains over many crawls was returned by a testing-mode crawl |
| `CrawlSpec.IndexOnlyGrows` | javacs-lab11/src/com/flatironschool/javacs/WikiCrawler.java:61-79 | over any number of crawls, the index never loses a URL |
| `CrawlSpec.QueuedUrlsAreWikiUrls` | javacs-lab11/src/com/flatironschool/javacs/WikiCrawler.java:61-79 | over any number of crawls, every queued URL was in the starting queue or begins with "https://en.wikipedia.org/wiki/" |
| `Crawler.Index.IsIndexed` | javacs-lab11/src/com/flatironschool/javacs/WikiCrawler.java:73 | true exactly when the URL is in the index |
| `Crawler.Index.IndexPage` | javacs-lab11/src/com/flatironschool/javacs/WikiCrawler.java:68 | the index afterwards holds the old URLs plus this one |
| `Crawler.WikiCrawler.constructor` | javacs-lab11/src/com/flatironschool/javacs/WikiCrawler.java:39-43 | the queue is exactly the source, the source and index are recorded, and the index is not touched |
| `Crawler.WikiCrawler.QueueSize` | javacs-lab11/src/com/flatironschool/javacs/WikiCrawler.java:50-52 | returns the length of the queue and changes nothing |
| `Crawler.WikiCrawler.Crawl` | javacs-lab11/src/com/flatironschool/javacs/WikiCrawler.java:61-79 | the new queue, the new index and the result are exactly those of `Step` on the old queue and index |
| `Crawler.WikiCrawler.QueueInternalLinks` | javacs-lab11/src/com/flatironschool/javacs/WikiCrawler.java:87-103 | the old queue is an unchanged prefix, followed by exactly `ExtractLinks` of the paragraphs |
| `Crawler.WikiCrawler.Enqueue` | javacs-lab11/src/com/flatironschool/javacs/WikiCrawler.java:104-107 | appends exactly one URL, "https://en.wikipedia.org" followed by the link |

## Left out

- `main` (`WikiCrawler.java:119-144`) is process wiring: the Redis connection, the console output and a driver loop that stops after one call. `CrawlSpec.Run` stands in for a caller making several calls.
- Reading a page (`WikiFetcher.readWikipedia`), meaning the network and HTML parsing, is not part of this model. It is a fetcher function passed to `Crawl`, and an `IOException` is its `None`.
- Depth-first node iteration (`WikiNodeIterable`) is not part of this model. Each paragraph is given as its node sequence in iteration order.
- The index's storage (Redis, the word counts written by `indexPage`, `getCounts`) is not part of this model. The index is the set of URLs it holds, and faults of the storage are not modelled.
- Crawler.Index.IndexPage: records only the URL, not the words of the page, because word counting belongs to the index's own implementation.
- Crawler.WikiCrawler.QueueSize: returns the exact length of the queue as an unbounded integer. Java's `size()` is a 32-bit `int` and would be wrong only past 2^31 - 1 queued URLs, a size no real heap holds.
- Java's `null` in the queue (a `null` source) is not modelled, because URLs are plain strings here.
- Skipping links inside parentheses is not modelled, because the code never changes its parenthesis counter.
