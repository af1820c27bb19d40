/** The decision logic of the three request handlers of index.js:
    POST /extract, GET /scrape-latest-one and POST /remember.

    The browser is an oracle: every Playwright call the handlers await is
    given in advance as resolving (with its value) or rejecting. Each handler
    returns the response it sends and the trace of browser steps it took, and
    updates the shared history store. */
module Handlers {
  import opened History
  import opened Text

  datatype Option<T> = None | Some(value: T)

  /** `req.body.url`: absent, or the string the client sent. */
  type RequestUrl = Option<string>

  /** `!url`: an absent url and an empty string are both missing. */
  predicate Missing(url: RequestUrl) {
    url.None? || url.value == ""
  }

  /** The responses the handlers send. */
  datatype Response =
    | MissingUrl                     // 400 the request has no url
    | Skipped                        // 200 /extract: the url was seen before
    | LatestAlreadySeen(url: Url)    // 200 /scrape-latest-one: the article was seen before
    | LinkNotFound                   // 404 no link to the newest article
    | Failed                         // 500 a browser call rejected
    | Extracted(title: string, content: string)
    | Scraped(url: Url, title: string, content: string)
    | AlreadySaved                   // 200 /remember: the url was seen before
    | Saved                          // 200 /remember: the url was added
  {
    /** The HTTP status: `res.status(...)` where the code sets one, 200 otherwise. */
    function Status(): (code: int)
      ensures code == 400 <==> this == MissingUrl
      ensures code == 404 <==> this == LinkNotFound
      ensures code == 500 <==> this == Failed
      ensures code in {200, 400, 404, 500}
    {
      match this
      case MissingUrl => 400
      case LinkNotFound => 404
      case Failed => 500
      case _ => 200
    }
  }

  /** The `waitUntil` option of `page.goto`. */
  datatype WaitUntil = DomContentLoaded | Load

  /** What the article-link query (`page.$eval` with the image selector, then
      `img.closest("a")`) yields. */
  datatype LinkQuery =
    | NoElement            // the selector matched nothing: `$eval` rejects
    | NoAnchor             // the image is not inside a link: the callback returns null
    | Href(href: string)   // `link.href`, possibly the empty string

  /** One browser step a handler takes, with whether it succeeded. */
  datatype Event =
    | Launch(ok: bool)                        // chromium.launch
    | OpenPage(ok: bool)                      // browser.newContext / context.newPage
    | Goto(url: Url, wait: WaitUntil, ok: bool)
    | ReadTitle(ok: bool)                     // page.title()
    | ReadContent(ok: bool)                   // body innerText / the article paragraphs
    | FindLink(result: LinkQuery)             // the article-link query on the home page
    | Record(url: Url)                        // addUrlToHistory(url)
    | ClosePage                               // articlePage.close()
    | CloseBrowser                            // browser.close() in `finally`

  /** How the browser answers the calls /extract makes. */
  datatype ExtractBrowser = ExtractBrowser(
    launches: bool,
    opensPage: bool,
    domContentLoaded: bool,        // goto(url, domcontentloaded) resolves
    load: bool,                    // goto(url, load) resolves
    title: Option<string>,
    bodyText: Option<string>)      // document.body.innerText

  /** The home page /scrape-latest-one starts from. */
  const HomeUrl: Url := "https://www.world-nuclear-news.org"

  /** How the browser answers the calls /scrape-latest-one makes. */
  datatype ScrapeBrowser = ScrapeBrowser(
    launches: bool,
    opensPage: bool,
    home: bool,                    // goto(HomeUrl, domcontentloaded) resolves
    link: LinkQuery,
    opensArticlePage: bool,
    article: bool,                 // goto(article, domcontentloaded) resolves
    title: Option<string>,
    paragraphs: Option<seq<string>>) // innerText of each `.article__body p`

  /** Once chromium.launch has resolved, the browser is closed exactly once,
      as the last step; if it never resolved, it is never closed. */
  predicate ClosedOnceAtEnd(trace: seq<Event>) {
    if Launch(true) in trace then
      trace != [] && trace[|trace| - 1] == CloseBrowser && multiset(trace)[CloseBrowser] == 1
    else
      CloseBrowser !in trace
  }

  /** A `load` navigation comes right after a failed `domcontentloaded`
      navigation to the same url. */
  predicate LoadOnlyAfterDomFailure(trace: seq<Event>) {
    forall i :: 0 <= i < |trace| && trace[i].Goto? && trace[i].wait == Load ==>
      0 < i && trace[i - 1] == Goto(trace[i].url, DomContentLoaded, false)
  }

  /** A url is recorded only right after the title and the content were read. */
  predicate RecordedAfterReads(trace: seq<Event>) {
    forall i :: 0 <= i < |trace| && trace[i].Record? ==>
      2 <= i && trace[i - 2] == ReadTitle(true) && trace[i - 1] == ReadContent(true)
  }

  predicate Records(trace: seq<Event>) {
    exists i :: 0 <= i < |trace| && trace[i].Record?
  }

  /** A step taken while the browser is open: neither the launch nor the close. */
  predicate InSession(e: Event) {
    !e.Launch? && e != CloseBrowser
  }

  /** The session steps, framed by a successful launch and the close in
      `finally`, close the browser exactly once. */
  lemma {:induction false} FramedSessionClosesOnce(session: seq<Event>)
    requires forall i :: 0 <= i < |session| ==> InSession(session[i])
    ensures ClosedOnceAtEnd([Launch(true)] + session + [CloseBrowser])
  {
    var trace := [Launch(true)] + session + [CloseBrowser];
    assert trace[0] == Launch(true);
    assert multiset(trace)[CloseBrowser] == 1 by {
      assert CloseBrowser !in session;
      assert multiset(session)[CloseBrowser] == 0;
    }
  }

  // ---------------------------------------------------------------------
  // The browser protocol: the steps each handler takes, as a function of
  // the browser's answers.

  /** `page.goto(u, {waitUntil: "domcontentloaded"})`, and, only if that
      rejects, `page.goto(u, {waitUntil: "load"})` in the catch block. */
  function Navigation(u: Url, domContentLoaded: bool, load: bool): seq<Event> {
    if domContentLoaded then [Goto(u, DomContentLoaded, true)]
    else [Goto(u, DomContentLoaded, false), Goto(u, Load, load)]
  }

  /** Reading the title, then the content, then addUrlToHistory(u); each
      step only if the one before it resolved. */
  function Reading(u: Url, titleOk: bool, contentOk: bool): seq<Event> {
    if !titleOk then [ReadTitle(false)]
    else if !contentOk then [ReadTitle(true), ReadContent(false)]
    else [ReadTitle(true), ReadContent(true), Record(u)]
  }

  /** /extract reads the page and records `u` exactly when every browser call resolves. */
  predicate ExtractSucceeds(b: ExtractBrowser) {
    b.launches && b.opensPage && (b.domContentLoaded || b.load)
    && b.title.Some? && b.bodyText.Some?
  }

  /** The steps of /extract's try block between a successful launch and the close. */
  function ExtractSession(u: Url, b: ExtractBrowser): seq<Event>
  {
    if !b.opensPage then [OpenPage(false)]
    else
      [OpenPage(true)] + Navigation(u, b.domContentLoaded, b.load)
      + (if b.domContentLoaded || b.load
         then Reading(u, b.title.Some?, b.bodyText.Some?) else [])
  }

  /** The steps /extract takes for a url that is neither missing nor seen. */
  function ExtractSteps(u: Url, b: ExtractBrowser): seq<Event> {
    if !b.launches then [Launch(false)]
    else [Launch(true)] + ExtractSession(u, b) + [CloseBrowser]
  }

  /** /scrape-latest-one reaches the article page: the home page loads, its
      newest-article link is a non-empty href, and that url was not seen. */
  predicate ScrapeReachesArticle(recent: seq<Url>, b: ScrapeBrowser) {
    b.launches && b.opensPage && b.home && b.link.Href? && b.link.href != ""
    && b.link.href !in recent
  }

  predicate ScrapeSucceeds(recent: seq<Url>, b: ScrapeBrowser) {
    ScrapeReachesArticle(recent, b) && b.opensArticlePage && b.article
    && b.title.Some? && b.paragraphs.Some?
  }

  /** The steps /scrape-latest-one takes on the article page at `h`: a
      second page, one navigation, the title, the paragraphs, the record
      and `articlePage.close()`. */
  function ArticleVisit(h: Url, b: ScrapeBrowser): seq<Event> {
    if !b.opensArticlePage then [OpenPage(false)]
    else if !b.article then [OpenPage(true), Goto(h, DomContentLoaded, false)]
    else
      [OpenPage(true), Goto(h, DomContentLoaded, true)]
      + Reading(h, b.title.Some?, b.paragraphs.Some?)
      + (if b.title.Some? && b.paragraphs.Some? then [ClosePage] else [])
  }

  /** The article part of /scrape-latest-one, after the link was looked up:
      nothing unless the link is a new, non-empty url. */
  function ArticleSteps(recent: seq<Url>, b: ScrapeBrowser): seq<Event> {
    if b.link.Href? && b.link.href != "" && b.link.href !in recent
    then ArticleVisit(b.link.href, b) else []
  }

  /** The steps of /scrape-latest-one's try block between a successful launch and the close. */
  function ScrapeSession(recent: seq<Url>, b: ScrapeBrowser): seq<Event>
  {
    if !b.opensPage then [OpenPage(false)]
    else if !b.home then [OpenPage(true), Goto(HomeUrl, DomContentLoaded, false)]
    else [OpenPage(true), Goto(HomeUrl, DomContentLoaded, true), FindLink(b.link)]
         + ArticleSteps(recent, b)
  }

  /** The steps /scrape-latest-one takes when getLastUrls returns `recent`. */
  function ScrapeSteps(recent: seq<Url>, b: ScrapeBrowser): seq<Event> {
    if !b.launches then [Launch(false)]
    else [Launch(true)] + ScrapeSession(recent, b) + [CloseBrowser]
  }

  /** The response /scrape-latest-one sends from the `!articleUrl` test on. */
  function LinkResponse(recent: seq<Url>, b: ScrapeBrowser): Response {
    match b.link
    case NoElement => Failed
    case NoAnchor => LinkNotFound
    case Href(h) =>
      if h == "" then LinkNotFound
      else if h in recent then LatestAlreadySeen(h)
      else if b.opensArticlePage && b.article && b.title.Some? && b.paragraphs.Some?
      then Scraped(h, b.title.value, ArticleContent(b.paragraphs.value))
      else Failed
  }

  // ---------------------------------------------------------------------
  // The trace properties carry over concatenation.

  lemma {:induction false} RecordsOfAppend(a: seq<Event>, b: seq<Event>)
    ensures Records(a + b) <==> Records(a) || Records(b)
  {
    var ab := a + b;
    if Records(ab) {
      var i :| 0 <= i < |ab| && ab[i].Record?;
      if i < |a| { assert a[i] == ab[i]; } else { assert b[i - |a|] == ab[i]; }
    }
    if Records(a) {
      var i :| 0 <= i < |a| && a[i].Record?;
      assert ab[i] == a[i];
    }
    if Records(b) {
      var i :| 0 <= i < |b| && b[i].Record?;
      assert ab[|a| + i] == b[i];
    }
  }

  lemma {:induction false} RecordedAfterReadsOfAppend(a: seq<Event>, b: seq<Event>)
    requires RecordedAfterReads(a) && RecordedAfterReads(b)
    ensures RecordedAfterReads(a + b)
  {
    var ab := a + b;
    forall i | 0 <= i < |ab| && ab[i].Record?
      ensures 2 <= i && ab[i - 2] == ReadTitle(true) && ab[i - 1] == ReadContent(true)
    {
      if i < |a| {
        assert a[i] == ab[i];
        assert ab[i - 2] == a[i - 2] && ab[i - 1] == a[i - 1];
      } else {
        var j := i - |a|;
        assert b[j] == ab[i];
        assert ab[i - 2] == b[j - 2] && ab[i - 1] == b[j - 1];
      }
    }
  }

  lemma {:induction false} LoadOnlyAfterDomFailureOfAppend(a: seq<Event>, b: seq<Event>)
    requires LoadOnlyAfterDomFailure(a) && LoadOnlyAfterDomFailure(b)
    ensures LoadOnlyAfterDomFailure(a + b)
  {
    var ab := a + b;
    forall i | 0 <= i < |ab| && ab[i].Goto? && ab[i].wait == Load
      ensures 0 < i && ab[i - 1] == Goto(ab[i].url, DomContentLoaded, false)
    {
      if i < |a| {
        assert a[i] == ab[i];
        assert ab[i - 1] == a[i - 1];
      } else {
        var j := i - |a|;
        assert b[j] == ab[i];
        assert ab[i - 1] == b[j - 1];
      }
    }
  }

  /** Framing a session by the launch and the close adds no record and no navigation. */
  lemma {:induction false} FramedSessionProtocol(session: seq<Event>)
    ensures RecordedAfterReads(session) ==>
              RecordedAfterReads([Launch(true)] + session + [CloseBrowser])
    ensures LoadOnlyAfterDomFailure(session) ==>
              LoadOnlyAfterDomFailure([Launch(true)] + session + [CloseBrowser])
    ensures Records([Launch(true)] + session + [CloseBrowser]) <==> Records(session)
  {
    var first, last := [Launch(true)], [CloseBrowser];
    assert RecordedAfterReads(first) && RecordedAfterReads(last);
    assert LoadOnlyAfterDomFailure(first) && LoadOnlyAfterDomFailure(last);
    assert !Records(first) && !Records(last);
    RecordsOfAppend(first, session);
    RecordsOfAppend(first + session, last);
    if RecordedAfterReads(session) {
      RecordedAfterReadsOfAppend(first, session);
      RecordedAfterReadsOfAppend(first + session, last);
    }
    if LoadOnlyAfterDomFailure(session) {
      LoadOnlyAfterDomFailureOfAppend(first, session);
      LoadOnlyAfterDomFailureOfAppend(first + session, last);
    }
  }

  /** Reading records the url, right after both reads, exactly when both resolved. */
  lemma {:induction false} ReadingProtocol(u: Url, titleOk: bool, contentOk: bool)
    ensures RecordedAfterReads(Reading(u, titleOk, contentOk))
    ensures LoadOnlyAfterDomFailure(Reading(u, titleOk, contentOk))
    ensures Records(Reading(u, titleOk, contentOk)) <==> titleOk && contentOk
  {
    var r := Reading(u, titleOk, contentOk);
    if titleOk && contentOk {
      assert r[2].Record?;
    }
  }

  /** The steps of /extract's session keep the trace properties. */
  lemma {:induction false} ExtractSessionProtocol(u: Url, b: ExtractBrowser)
    ensures RecordedAfterReads(ExtractSession(u, b))
    ensures LoadOnlyAfterDomFailure(ExtractSession(u, b))
    ensures Records(ExtractSession(u, b)) <==>
              b.opensPage && (b.domContentLoaded || b.load) && b.title.Some? && b.bodyText.Some?
    ensures Goto(u, Load, b.load) in ExtractSession(u, b) <==> b.opensPage && !b.domContentLoaded
  {
    if b.opensPage {
      var head := [OpenPage(true)] + Navigation(u, b.domContentLoaded, b.load);
      var reading := if b.domContentLoaded || b.load
                     then Reading(u, b.title.Some?, b.bodyText.Some?) else [];
      assert ExtractSession(u, b) == head + reading;
      assert RecordedAfterReads(head) && !Records(head);
      assert LoadOnlyAfterDomFailure(head) by {
        if !b.domContentLoaded { assert head[1] == Goto(u, DomContentLoaded, false); }
      }
      ReadingProtocol(u, b.title.Some?, b.bodyText.Some?);
      assert RecordedAfterReads(reading) && LoadOnlyAfterDomFailure(reading);
      RecordsOfAppend(head, reading);
      RecordedAfterReadsOfAppend(head, reading);
      LoadOnlyAfterDomFailureOfAppend(head, reading);
      if !b.domContentLoaded {
        assert head[2] == Goto(u, Load, b.load);
      }
    }
  }

  /** The steps on /scrape-latest-one's article page keep the trace properties. */
  lemma {:induction false} ArticleVisitProtocol(h: Url, b: ScrapeBrowser)
    ensures RecordedAfterReads(ArticleVisit(h, b))
    ensures Records(ArticleVisit(h, b)) <==>
              b.opensArticlePage && b.article && b.title.Some? && b.paragraphs.Some?
  {
    if b.opensArticlePage && b.article {
      var head := [OpenPage(true), Goto(h, DomContentLoaded, true)];
      var reading := Reading(h, b.title.Some?, b.paragraphs.Some?);
      var tail := if b.title.Some? && b.paragraphs.Some? then [ClosePage] else [];
      assert ArticleVisit(h, b) == head + reading + tail;
      assert RecordedAfterReads(head) && !Records(head);
      assert RecordedAfterReads(tail) && !Records(tail);
      ReadingProtocol(h, b.title.Some?, b.paragraphs.Some?);
      RecordsOfAppend(head, reading);
      RecordsOfAppend(head + reading, tail);
      RecordedAfterReadsOfAppend(head, reading);
      RecordedAfterReadsOfAppend(head + reading, tail);
    }
  }

  /** The steps of /scrape-latest-one's session keep the trace properties. */
  lemma {:induction false} ScrapeSessionProtocol(recent: seq<Url>, b: ScrapeBrowser)
    requires b.launches
    ensures RecordedAfterReads(ScrapeSession(recent, b))
    ensures Records(ScrapeSession(recent, b)) <==> ScrapeSucceeds(recent, b)
  {
    if b.opensPage && b.home {
      var head := [OpenPage(true), Goto(HomeUrl, DomContentLoaded, true), FindLink(b.link)];
      var article := ArticleSteps(recent, b);
      assert ScrapeSession(recent, b) == head + article;
      assert RecordedAfterReads(head) && !Records(head);
      if ScrapeReachesArticle(recent, b) {
        ArticleVisitProtocol(b.link.href, b);
      }
      assert RecordedAfterReads(article);
      RecordsOfAppend(head, article);
      RecordedAfterReadsOfAppend(head, article);
    }
  }

  // ---------------------------------------------------------------------
  // What the protocol guarantees, for every browser answer.

  /** /extract: once launched, the browser is closed exactly once, last. */
  lemma {:induction false} ExtractClosesBrowserOnce(u: Url, b: ExtractBrowser)
    ensures ClosedOnceAtEnd(ExtractSteps(u, b))
  {
    if b.launches {
      var session := ExtractSession(u, b);
      assert forall i :: 0 <= i < |session| ==> InSession(session[i]);
      FramedSessionClosesOnce(session);
    }
  }

  /** /extract: the `load` navigation is tried exactly when the browser is up
      and the `domcontentloaded` navigation rejected, and right after it. */
  lemma {:induction false} ExtractFallsBackOnlyAfterDomFailure(u: Url, b: ExtractBrowser)
    ensures LoadOnlyAfterDomFailure(ExtractSteps(u, b))
    ensures Goto(u, Load, b.load) in ExtractSteps(u, b)
            <==> b.launches && b.opensPage && !b.domContentLoaded
  {
    if b.launches {
      ExtractSessionProtocol(u, b);
      FramedSessionProtocol(ExtractSession(u, b));
    }
  }

  /** /extract: the url is recorded only right after the title and the content
      were read, and exactly when every browser call resolved. */
  lemma {:induction false} ExtractRecordsAfterReads(u: Url, b: ExtractBrowser)
    ensures RecordedAfterReads(ExtractSteps(u, b))
    ensures Records(ExtractSteps(u, b)) <==> ExtractSucceeds(b)
  {
    if b.launches {
      ExtractSessionProtocol(u, b);
      FramedSessionProtocol(ExtractSession(u, b));
    }
  }

  /** /scrape-latest-one: once launched, the browser is closed exactly once, last. */
  lemma {:induction false} ScrapeClosesBrowserOnce(recent: seq<Url>, b: ScrapeBrowser)
    ensures ClosedOnceAtEnd(ScrapeSteps(recent, b))
  {
    if b.launches {
      var session := ScrapeSession(recent, b);
      var article := ArticleSteps(recent, b);
      assert forall i :: 0 <= i < |article| ==> InSession(article[i]);
      assert forall i :: 0 <= i < |session| ==> InSession(session[i]);
      FramedSessionClosesOnce(session);
    }
  }

  /** /scrape-latest-one has no `load` fallback: every navigation waits for
      `domcontentloaded`. */
  lemma {:induction false} ScrapeNeverFallsBack(recent: seq<Url>, b: ScrapeBrowser)
    ensures forall e :: e in ScrapeSteps(recent, b) && e.Goto? ==> e.wait == DomContentLoaded
  {
    if b.launches && b.opensPage && b.home {
      var article := ArticleSteps(recent, b);
      if ScrapeReachesArticle(recent, b) {
        ArticleVisitNeverFallsBack(b.link.href, b);
      }
      assert forall e :: e in article && e.Goto? ==> e.wait == DomContentLoaded;
      assert ScrapeSteps(recent, b) ==
        [Launch(true), OpenPage(true), Goto(HomeUrl, DomContentLoaded, true), FindLink(b.link)]
        + article + [CloseBrowser];
    }
  }

  /** The article page is loaded with one `domcontentloaded` navigation. */
  lemma {:induction false} ArticleVisitNeverFallsBack(h: Url, b: ScrapeBrowser)
    ensures forall e :: e in ArticleVisit(h, b) && e.Goto? ==> e.wait == DomContentLoaded
  {
    if b.opensArticlePage && b.article {
      var reading := Reading(h, b.title.Some?, b.paragraphs.Some?);
      assert forall e :: e in reading ==> !e.Goto?;
    }
  }

  /** /scrape-latest-one: the article url is recorded only right after the
      title and the paragraphs were read, and exactly when every call resolved. */
  lemma {:induction false} ScrapeRecordsAfterReads(recent: seq<Url>, b: ScrapeBrowser)
    ensures RecordedAfterReads(ScrapeSteps(recent, b))
    ensures Records(ScrapeSteps(recent, b)) <==> ScrapeSucceeds(recent, b)
  {
    if b.launches {
      ScrapeSessionProtocol(recent, b);
      FramedSessionProtocol(ScrapeSession(recent, b));
    }
  }

  /** Once the home page is loaded, /scrape-latest-one answers 404 exactly
      when the page has no usable link, "already seen" exactly for a link
      among the recent urls, and the article exactly when every further
      browser call resolved; any other outcome is a 500. */
  lemma {:induction false} LinkResponseCases(recent: seq<Url>, b: ScrapeBrowser)
    ensures LinkResponse(recent, b) == LinkNotFound <==>
              b.link == NoAnchor || b.link == Href("")
    ensures LinkResponse(recent, b).LatestAlreadySeen? <==>
              b.link.Href? && b.link.href != "" && b.link.href in recent
    ensures LinkResponse(recent, b).LatestAlreadySeen? ==>
              LinkResponse(recent, b).url == b.link.href
    ensures LinkResponse(recent, b).Scraped? <==>
              && b.link.Href? && b.link.href != "" && b.link.href !in recent
              && b.opensArticlePage && b.article && b.title.Some? && b.paragraphs.Some?
    ensures LinkResponse(recent, b).Scraped? ==>
              LinkResponse(recent, b)
              == Scraped(b.link.href, b.title.value, ArticleContent(b.paragraphs.value))
    ensures LinkResponse(recent, b) in {LinkNotFound, Failed}
            || LinkResponse(recent, b).LatestAlreadySeen? || LinkResponse(recent, b).Scraped?
  {
  }

  /** /scrape-latest-one: without a usable link, or with a link already seen,
      the handler stops at the home page and never opens the article. */
  lemma {:induction false} ScrapeStopsAtHomePage(recent: seq<Url>, b: ScrapeBrowser)
    requires b.launches && b.opensPage && b.home && !ScrapeReachesArticle(recent, b)
    ensures ScrapeSteps(recent, b)
            == [Launch(true), OpenPage(true), Goto(HomeUrl, DomContentLoaded, true),
                FindLink(b.link), CloseBrowser]
  {
  }

  // ---------------------------------------------------------------------
  // The handlers.

  /** The `page.goto` of /extract, with its catch block retrying on `load`. */
  method Navigate(u: Url, domContentLoaded: bool, load: bool)
    returns (navigated: bool, steps: seq<Event>)
    ensures navigated <==> domContentLoaded || load
    ensures steps == Navigation(u, domContentLoaded, load)
    ensures Goto(u, Load, load) in steps <==> !domContentLoaded
  {
    steps := [Goto(u, DomContentLoaded, domContentLoaded)];
    navigated := domContentLoaded;
    if !navigated {
      // catch: the same url again, waiting for `load`
      steps := steps + [Goto(u, Load, load)];
      navigated := load;
    }
  }

  /** The try block of /extract after `chromium.launch` resolved. */
  method ExtractWithBrowser(store: HistoryStore, u: Url, browser: ExtractBrowser)
    returns (resp: Response, session: seq<Event>)
    requires store.Valid() && browser.launches
    modifies store
    ensures store.Valid()
    ensures session == ExtractSession(u, browser)
    ensures resp.Extracted? <==> ExtractSucceeds(browser)
    ensures resp.Extracted? ==>
              && resp == Extracted(browser.title.value, Trim(browser.bodyText.value))
              && store.State() == Add(old(store.State()), u)
    ensures !resp.Extracted? ==> resp == Failed && store.State() == old(store.State())
  {
    if !browser.opensPage {
      return Failed, [OpenPage(false)];
    }
    var navigated, nav := Navigate(u, browser.domContentLoaded, browser.load);
    var head := [OpenPage(true)] + nav;
    if !navigated {
      return Failed, head;
    }
    if browser.title.None? {
      return Failed, head + [ReadTitle(false)];
    }
    if browser.bodyText.None? {
      return Failed, head + [ReadTitle(true), ReadContent(false)];
    }
    store.AddUrlToHistory(u);
    resp := Extracted(browser.title.value, Trim(browser.bodyText.value));
    session := head + [ReadTitle(true), ReadContent(true), Record(u)];
  }

  /** POST /extract (index.js:70-129). */
  method Extract(store: HistoryStore, url: RequestUrl, browser: ExtractBrowser)
    returns (resp: Response, trace: seq<Event>)
    requires store.Valid()
    modifies store
    ensures store.Valid()
    ensures resp == MissingUrl <==> Missing(url)
    ensures resp == Skipped <==> !Missing(url) && url.value in old(store.GetLastUrls())
    ensures Missing(url) || url.value in old(store.GetLastUrls()) ==> trace == []
    ensures !Missing(url) && url.value !in old(store.GetLastUrls()) ==>
              trace == ExtractSteps(url.value, browser)
    ensures !Missing(url) && url.value !in old(store.GetLastUrls()) && !ExtractSucceeds(browser) ==>
              resp == Failed
    ensures ClosedOnceAtEnd(trace) && LoadOnlyAfterDomFailure(trace) && RecordedAfterReads(trace)
    ensures resp.Extracted? <==>
              !Missing(url) && url.value !in old(store.GetLastUrls()) && ExtractSucceeds(browser)
    ensures resp.Extracted? ==>
              && resp == Extracted(browser.title.value, Trim(browser.bodyText.value))
              && store.State() == Add(old(store.State()), url.value)
    ensures !resp.Extracted? ==> store.State() == old(store.State()) && !Records(trace)
    ensures resp in {MissingUrl, Skipped, Failed} || resp.Extracted?
  {
    if Missing(url) {
      return MissingUrl, [];
    }
    var u := url.value;
    var recentUrls := store.GetLastUrls();
    if u in recentUrls {
      return Skipped, [];
    }
    ExtractClosesBrowserOnce(u, browser);
    ExtractFallsBackOnlyAfterDomFailure(u, browser);
    ExtractRecordsAfterReads(u, browser);
    var launched := false;  // whether `browser` was assigned
    // try
    trace := [Launch(browser.launches)];
    if !browser.launches {
      resp := Failed;
    } else {
      launched := true;
      var session;
      resp, session := ExtractWithBrowser(store, u, browser);
      trace := trace + session;
    }
    // finally
    if launched {
      trace := trace + [CloseBrowser];
    }
  }

  /** /scrape-latest-one from `context.newPage()` for the article at
      `articleUrl` on. */
  method ScrapeArticle(store: HistoryStore, articleUrl: Url, browser: ScrapeBrowser)
    returns (resp: Response, steps: seq<Event>)
    requires store.Valid()
    modifies store
    ensures store.Valid()
    ensures steps == ArticleVisit(articleUrl, browser)
    ensures resp.Scraped? <==>
              browser.opensArticlePage && browser.article
              && browser.title.Some? && browser.paragraphs.Some?
    ensures resp.Scraped? ==>
              && resp == Scraped(articleUrl, browser.title.value,
                                 ArticleContent(browser.paragraphs.value))
              && store.State() == Add(old(store.State()), articleUrl)
    ensures !resp.Scraped? ==> resp == Failed && store.State() == old(store.State())
  {
    if !browser.opensArticlePage {
      return Failed, [OpenPage(false)];
    }
    // a single navigation, no `load` fallback
    if !browser.article {
      return Failed, [OpenPage(true), Goto(articleUrl, DomContentLoaded, false)];
    }
    var visit := [OpenPage(true), Goto(articleUrl, DomContentLoaded, true)];
    if browser.title.None? {
      return Failed, visit + [ReadTitle(false)];
    }
    if browser.paragraphs.None? {
      return Failed, visit + [ReadTitle(true), ReadContent(false)];
    }
    var content := ArticleContent(browser.paragraphs.value);
    store.AddUrlToHistory(articleUrl);
    resp := Scraped(articleUrl, browser.title.value, content);
    steps := visit + [ReadTitle(true), ReadContent(true), Record(articleUrl)] + [ClosePage];
  }

  /** /scrape-latest-one from the `!articleUrl` test on: the link the home
      page's `$eval` returned is missing, already seen, or followed. */
  method FollowLink(store: HistoryStore, browser: ScrapeBrowser, ghost before: Table)
    returns (resp: Response, steps: seq<Event>)
    requires store.Valid() && store.State() == before
    modifies store
    ensures store.Valid()
    ensures steps == ArticleSteps(LastUrls(before.rows), browser)
    ensures resp == LinkResponse(LastUrls(before.rows), browser)
    ensures resp.Scraped? ==> store.State() == Add(before, browser.link.href)
    ensures !resp.Scraped? ==> store.State() == before
  {
    steps := [];
    match browser.link
    case NoElement =>
      // `$eval` rejects when the selector matches nothing
      resp := Failed;
    case NoAnchor =>
      resp := LinkNotFound;
    case Href(articleUrl) =>
      if articleUrl == "" {
        resp := LinkNotFound;
      } else {
        var recentUrls := store.GetLastUrls();
        if articleUrl in recentUrls {
          resp := LatestAlreadySeen(articleUrl);
        } else {
          resp, steps := ScrapeArticle(store, articleUrl, browser);
        }
      }
  }

  /** The try block of /scrape-latest-one after `chromium.launch` resolved. */
  method ScrapeWithBrowser(store: HistoryStore, browser: ScrapeBrowser, ghost before: Table)
    returns (resp: Response, session: seq<Event>)
    requires store.Valid() && store.State() == before && browser.launches
    modifies store
    ensures store.Valid()
    ensures session == ScrapeSession(LastUrls(before.rows), browser)
    ensures browser.opensPage && browser.home ==> resp == LinkResponse(LastUrls(before.rows), browser)
    ensures !(browser.opensPage && browser.home) ==> resp == Failed
    ensures resp.Scraped? ==> store.State() == Add(before, browser.link.href)
    ensures !resp.Scraped? ==> store.State() == before
  {
    if !browser.opensPage {
      return Failed, [OpenPage(false)];
    }
    // a single navigation, no `load` fallback
    if !browser.home {
      return Failed, [OpenPage(true), Goto(HomeUrl, DomContentLoaded, false)];
    }
    var steps;
    resp, steps := FollowLink(store, browser, before);
    session := [OpenPage(true), Goto(HomeUrl, DomContentLoaded, true), FindLink(browser.link)] + steps;
  }

  /** GET /scrape-latest-one (index.js:134-206). */
  method ScrapeLatestOne(store: HistoryStore, browser: ScrapeBrowser)
    returns (resp: Response, trace: seq<Event>)
    requires store.Valid()
    modifies store
    ensures store.Valid()
    ensures trace == ScrapeSteps(old(store.GetLastUrls()), browser)
    ensures ClosedOnceAtEnd(trace) && RecordedAfterReads(trace)
    ensures resp == LinkNotFound <==>
              && browser.launches && browser.opensPage && browser.home
              && (browser.link == NoAnchor || browser.link == Href(""))
    ensures resp.LatestAlreadySeen? <==>
              && browser.launches && browser.opensPage && browser.home
              && browser.link.Href? && browser.link.href != ""
              && browser.link.href in old(store.GetLastUrls())
    ensures resp.LatestAlreadySeen? ==> resp.url == browser.link.href
    ensures resp.Scraped? <==> ScrapeSucceeds(old(store.GetLastUrls()), browser)
    ensures resp.Scraped? ==>
              && resp == Scraped(browser.link.href, browser.title.value,
                                 ArticleContent(browser.paragraphs.value))
              && store.State() == Add(old(store.State()), browser.link.href)
    ensures !resp.Scraped? ==> store.State() == old(store.State()) && !Records(trace)
    ensures resp in {LinkNotFound, Failed} || resp.LatestAlreadySeen? || resp.Scraped?
  {
    ghost var recent := store.GetLastUrls();
    ScrapeClosesBrowserOnce(recent, browser);
    ScrapeRecordsAfterReads(recent, browser);
    LinkResponseCases(recent, browser);
    var launched := false;  // whether `browser` was assigned
    // try
    trace := [Launch(browser.launches)];
    if !browser.launches {
      resp := Failed;
    } else {
      launched := true;
      var session;
      resp, session := ScrapeWithBrowser(store, browser, store.State());
      trace := trace + session;
    }
    // finally
    if launched {
      trace := trace + [CloseBrowser];
    }
  }

  /** POST /remember (index.js:208-226). */
  method Remember(store: HistoryStore, url: RequestUrl) returns (resp: Response)
    requires store.Valid()
    modifies store
    ensures store.Valid()
    ensures Missing(url) ==> resp == MissingUrl
    ensures !Missing(url) && url.value in old(store.GetLastUrls()) ==> resp == AlreadySaved
    ensures !Missing(url) && url.value !in old(store.GetLastUrls()) ==> resp == Saved
    ensures resp == Saved ==> store.State() == Add(old(store.State()), url.value)
    ensures resp != Saved ==> store.State() == old(store.State())
    ensures resp == Saved && |old(store.rows)| <= MaxUrls ==> url.value in store.GetLastUrls()
  {
    if Missing(url) {
      return MissingUrl;
    }
    var u := url.value;
    var recentUrls := store.GetLastUrls();
    if u in recentUrls {
      return AlreadySaved;
    }
    ghost var before := store.State();
    store.AddUrlToHistory(u);
    if |before.rows| <= MaxUrls {
      AddIsIdempotent(before, u);
    }
    resp := Saved;
  }
}
