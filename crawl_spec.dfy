/**
 What one call of `crawl` does to the crawler's queue and to the set of pages
 the index holds, stated on values, and what a sequence of calls does.
 */
module CrawlSpec {
  import opened Wrappers
  import opened Document
  import opened Links

  /** The page fetcher: a URL's paragraphs, or None when reading the page
      raises an IOException. */
  type Fetcher = string -> Option<Elements>

  /** The state one crawl reads and writes: the work queue, head first, and the
      URLs the index holds. */
  datatype CrawlState = CrawlState(queue: seq<string>, indexed: set<string>)

  /** What `crawl` gives back: the crawled URL, null, or the IOException of the fetch. */
  datatype CrawlResult = Url(url: string) | Null | IOException

  datatype StepOutcome = StepOutcome(state: CrawlState, result: CrawlResult)

  /** One call of `crawl(testing)`. The head is polled before anything else, the page
      is fetched before the index is asked about it, and in testing mode the page is
      indexed before its links are queued. */
  function Step(s: CrawlState, testing: bool, fetch: Fetcher): (out: StepOutcome)
    // the head leaves the queue and the rest of the old queue stays in front, in order
    ensures s.queue != [] ==>
      |out.state.queue| >= |s.queue| - 1 && out.state.queue[..|s.queue| - 1] == s.queue[1..]
    // a returned URL is always the polled head
    ensures out.result.Url? ==> s.queue != [] && out.result.url == s.queue[0]
    // the index only ever gains the polled head, and only in testing mode
    ensures s.indexed <= out.state.indexed
    ensures out.state.indexed <= s.indexed + (if testing && out.result.Url? then {out.result.url} else {})
    // everything that is queued is a wiki URL
    ensures forall u :: u in out.state.queue ==> u in s.queue || IsWikiUrl(u)
  {
    if s.queue == [] then StepOutcome(s, Null)
    else
      var url, rest := s.queue[0], s.queue[1..];
      match fetch(url)
      case None => StepOutcome(CrawlState(rest, s.indexed), IOException)
      case Some(paragraphs) =>
        ExtractLinksAreWikiUrls(paragraphs);
        if testing then
          StepOutcome(CrawlState(rest + ExtractLinks(paragraphs), s.indexed + {url}), Url(url))
        else if url in s.indexed then
          StepOutcome(CrawlState(rest, s.indexed), Null)
        else
          StepOutcome(CrawlState(rest + ExtractLinks(paragraphs), s.indexed), Url(url))
  }

  datatype RunOutcome = RunOutcome(state: CrawlState, results: seq<CrawlResult>)

  /** The calls `crawl(modes[0])`, `crawl(modes[1])`, ... made one after another. */
  function Run(s: CrawlState, modes: seq<bool>, fetch: Fetcher): (out: RunOutcome)
    ensures |out.results| == |modes|
    decreases |modes|
  {
    if modes == [] then RunOutcome(s, [])
    else
      var first := Step(s, modes[0], fetch);
      var rest := Run(first.state, modes[1..], fetch);
      RunOutcome(rest.state, [first.result] + rest.results)
  }

  /** On an empty queue `crawl` returns null and changes nothing, in either mode. */
  lemma EmptyQueueStep(s: CrawlState, testing: bool, fetch: Fetcher)
    requires s.queue == []
    ensures Step(s, testing, fetch) == StepOutcome(s, Null)
  {
  }

  /** In testing mode a fetched head is returned, added to the index, and its page's
      links are queued behind the rest of the old queue. */
  lemma TestingStep(s: CrawlState, fetch: Fetcher)
    requires s.queue != [] && fetch(s.queue[0]).Some?
    ensures Step(s, true, fetch) ==
      StepOutcome(CrawlState(s.queue[1..] + ExtractLinks(fetch(s.queue[0]).value),
                             s.indexed + {s.queue[0]}),
                  Url(s.queue[0]))
  {
  }

  /** In production mode an already indexed head is dropped: null, nothing queued,
      the index untouched. */
  lemma ProductionStepOnIndexed(s: CrawlState, fetch: Fetcher)
    requires s.queue != [] && fetch(s.queue[0]).Some? && s.queue[0] in s.indexed
    ensures Step(s, false, fetch) == StepOutcome(CrawlState(s.queue[1..], s.indexed), Null)
  {
  }

  /** In production mode a head not yet indexed is returned and its page's links are
      queued, but the page is not written to the index. */
  lemma ProductionStepOnNew(s: CrawlState, fetch: Fetcher)
    requires s.queue != [] && fetch(s.queue[0]).Some? && s.queue[0] !in s.indexed
    ensures Step(s, false, fetch) ==
      StepOutcome(CrawlState(s.queue[1..] + ExtractLinks(fetch(s.queue[0]).value), s.indexed),
                  Url(s.queue[0]))
  {
  }

  /** A failed fetch still consumes the head, in either mode and whether or not the
      head is indexed, because the page is read before the index is asked. */
  lemma FailedFetchStep(s: CrawlState, testing: bool, fetch: Fetcher)
    requires s.queue != [] && fetch(s.queue[0]).None?
    ensures Step(s, testing, fetch) == StepOutcome(CrawlState(s.queue[1..], s.indexed), IOException)
  {
  }

  /** Repeated calls on an empty queue all return null and never change the state. */
  lemma {:induction false} EmptyQueueIsStable(s: CrawlState, modes: seq<bool>, fetch: Fetcher)
    requires s.queue == []
    ensures Run(s, modes, fetch).state == s
    ensures forall k :: 0 <= k < |modes| ==> Run(s, modes, fetch).results[k] == Null
    decreases |modes|
  {
    if modes != [] {
      EmptyQueueIsStable(s, modes[1..], fetch);
    }
  }

  /** FIFO order: n calls poll the first n URLs of the queue in order, each returned URL
      is the one polled at its position, and the rest of the old queue is still in front. */
  lemma {:induction false} RunIsFifo(s: CrawlState, modes: seq<bool>, fetch: Fetcher)
    requires |modes| <= |s.queue|
    ensures |Run(s, modes, fetch).state.queue| >= |s.queue| - |modes|
    ensures Run(s, modes, fetch).state.queue[..|s.queue| - |modes|] == s.queue[|modes|..]
    ensures forall k :: 0 <= k < |modes| && Run(s, modes, fetch).results[k].Url? ==>
      Run(s, modes, fetch).results[k].url == s.queue[k]
    decreases |modes|
  {
    if modes != [] {
      var first := Step(s, modes[0], fetch);
      var q, q1 := s.queue, first.state.queue;
      RunIsFifo(first.state, modes[1..], fetch);
      var out := Run(s, modes, fetch);
      var n := |modes|;
      assert out.state.queue[..|q1| - (n - 1)] == q1[n - 1..];
      assert out.state.queue[..|q| - n] == q1[n - 1..][..|q| - n];
      assert q1[n - 1..][..|q| - n] == q1[..|q| - 1][n - 1..];
      forall k | 0 <= k < n && out.results[k].Url?
        ensures out.results[k].url == q[k]
      {
        if k > 0 {
          assert out.results[k] == Run(first.state, modes[1..], fetch).results[k - 1];
          assert q1[k - 1] == q1[..|q| - 1][k - 1];
        }
      }
    }
  }

  /** In production mode the index never changes, however many calls are made. */
  lemma {:induction false} ProductionNeverIndexes(s: CrawlState, modes: seq<bool>, fetch: Fetcher)
    requires forall k :: 0 <= k < |modes| ==> !modes[k]
    ensures Run(s, modes, fetch).state.indexed == s.indexed
    decreases |modes|
  {
    if modes != [] {
      ProductionNeverIndexes(Step(s, modes[0], fetch).state, modes[1..], fetch);
    }
  }

  /** The index only grows, and every URL it gains is one a testing-mode call returned. */
  lemma {:induction false} IndexGainsOnlyTestedUrls(s: CrawlState, modes: seq<bool>, fetch: Fetcher, u: string)
    requires u in Run(s, modes, fetch).state.indexed && u !in s.indexed
    ensures exists k :: 0 <= k < |modes| && modes[k] && Run(s, modes, fetch).results[k] == Url(u)
    decreases |modes|
  {
    var first := Step(s, modes[0], fetch);
    var out := Run(s, modes, fetch);
    if u in first.state.indexed {
      assert modes[0] && out.results[0] == Url(u);
    } else {
      IndexGainsOnlyTestedUrls(first.state, modes[1..], fetch, u);
      var k :| 0 <= k < |modes[1..]| && modes[1..][k] && Run(first.state, modes[1..], fetch).results[k] == Url(u);
      assert modes[k + 1] && out.results[k + 1] == Url(u);
    }
  }

  /** The index never loses a URL over a sequence of calls. */
  lemma {:induction false} IndexOnlyGrows(s: CrawlState, modes: seq<bool>, fetch: Fetcher)
    ensures s.indexed <= Run(s, modes, fetch).state.indexed
    decreases |modes|
  {
    if modes != [] {
      IndexOnlyGrows(Step(s, modes[0], fetch).state, modes[1..], fetch);
    }
  }

  /** Whatever the calls, every URL on the queue was there at the start or is a wiki URL. */
  lemma {:induction false} QueuedUrlsAreWikiUrls(s: CrawlState, modes: seq<bool>, fetch: Fetcher)
    ensures forall u :: u in Run(s, modes, fetch).state.queue ==> u in s.queue || IsWikiUrl(u)
    decreases |modes|
  {
    if modes != [] {
      QueuedUrlsAreWikiUrls(Step(s, modes[0], fetch).state, modes[1..], fetch);
    }
  }
}
