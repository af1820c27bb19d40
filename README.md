# A verified model of the news-extraction service's URL history and handlers

The service in `index.js` is a small Express server. It drives a headless
Chromium through Playwright and keeps the URLs it has already processed in a
SQLite table `urls`. This project models two parts of it in Dafny:

- **The bounded, deduplicating URL history** (`history.dfy`, module `History`).
  - The `urls` table is a sequence of `(id, url)` rows in insertion order, plus the next AUTOINCREMENT id.
  - `getLastUrls` returns at most `MAX_URLS = 20` urls, newest first.
  - `addUrlToHistory` does `INSERT OR IGNORE` on the UNIQUE url column, then counts the rows. Over the cap, it deletes every row but the `MAX_URLS` newest.
  - The shared table is the class `HistoryStore`. Its method `AddUrlToHistory` updates the rows in place, in the source's three steps. It is proved against the function `Add`.
- **The decision logic of the three handlers** (`handlers.dfy`, module `Handlers`): POST `/extract`, GET `/scrape-latest-one` and POST `/remember`.
  - The browser is an oracle. Each Playwright call a handler awaits is given in advance as resolving, with its value, or rejecting. These are the records `ExtractBrowser` and `ScrapeBrowser`. `browser.newContext` and `context.newPage` share one answer (`opensPage`), and either rejecting is a 500. `waitForTimeout` and the two `close()` calls get no answer; they are taken to resolve (see "## Left out").
  - Each handler method returns the response it sends and the trace of browser steps it took. It updates the shared `HistoryStore`.
  - Functions of the inputs specify each trace: `ExtractSteps` and `ScrapeSteps`. Lemmas prove three protocol properties for every browser answer. Once launched, the browser is closed exactly once, last. The `load` navigation comes only right after a failed `domcontentloaded` one. A url is recorded only right after its title and content were read, and exactly when every call resolved.
- **The string handling the handlers apply** (`text.dfy`, module `Text`).
  - `String.prototype.trim` is `Trim`. Its whitespace set is the WhiteSpace and LineTerminator code points of ECMA-262 (sections 12.2 and 12.3).
  - The paragraph pipeline `ps.map(p => p.innerText.trim()).filter(Boolean)` is `Paragraphs`, and `join("\n\n")` is `Join`.

Assumptions:

- **"Newest" is insertion order.** The source orders by `added_at DESC`. `added_at` is `CURRENT_TIMESTAMP` with one-second resolution, so the source does not decide between rows added in the same second. The model uses the monotonically increasing `id` as a logical clock for `added_at`.
- **`!url` means missing.** An absent url and the empty string are both missing (`Missing`).
- **`$eval` with no matching element rejects.** `page.$eval` rejects when the selector matches nothing, so that case is a 500 (`NoElement`). Only a `null` href or an empty one takes the 404 branch (index.js:157-168).
- **The invariant is the schema, not the cap.** `HistoryStore.Valid()` is what the schema guarantees: ids increase with insertion and stay below the next id, and urls are unique. It does not include the cap, because `CREATE TABLE IF NOT EXISTS` may open an existing file with more rows. Absent storage failures, every call to `addUrlToHistory` brings the table within the cap. The lemmas that need the cap require it.

## Model

| member | source | states |
|---|---|---|
| History.Urls | index.js:47 | the url column, url by url: as many urls as rows, the i-th being the url of row i; `url in Urls(rows)` is the UNIQUE check that makes INSERT OR IGNORE skip the insert (index.js:24) |
| History.Newest | index.js:39-41 | the rows `ORDER BY added_at DESC LIMIT MAX_URLS` selects, and the rows the delete's subquery (index.js:55) keeps: the MAX_URLS rows with the largest ids, taking ids as the order of `added_at` (a definition) |
| History.NewestFirst | index.js:39-43 | the urls in `DESC` order after `rows.map(row => row.url)`: as many as rows, the i-th being the url of row `|rows|-1-i` |
| History.LastUrls | index.js:36-44 | getLastUrls returns `Min(rows, MAX_URLS)` urls, and the i-th is the url of the i-th newest row |
| History.Add | index.js:46-61 | after addUrlToHistory the table holds at most MAX_URLS rows, whatever its size before |
| History.AddCases | index.js:47-58 | on a table within the cap: a stored url leaves the table unchanged; a new url gets the next id and is appended, and the oldest row is evicted exactly when the table was full |
| History.AddAll | index.js:46-61 | after at least one addUrlToHistory call the table respects the cap |
| History.AppendKeepsWellFormed | index.js:21-27 | inserting a row for an absent url with the next id keeps ids ordered and urls unique |
| History.SuffixKeepsWellFormed | index.js:52-58 | deleting the oldest rows keeps ids ordered and urls unique |
| History.NewestKeepsWellFormed | index.js:51-58 | keeping only the MAX_URLS newest rows keeps ids ordered and urls unique |
| History.AddKeepsWellFormed | index.js:46-61 | addUrlToHistory keeps the UNIQUE url column and the id order |
| History.SeenIffStored | index.js:79-80 | within the cap, `getLastUrls().includes(url)` holds exactly when the url is stored, so the handlers' "seen" test agrees with INSERT OR IGNORE |
| History.AddedUrlComesFirst | index.js:36-61 | a newly added url is the first url getLastUrls returns; the others follow in their old order; the oldest is dropped when the table was full |
| History.AddIsIdempotent | index.js:46-48 | within the cap, the added url is then returned by getLastUrls, and adding it again changes nothing |
| History.AddNewUrlShifts | index.js:47-58 | a new url is appended to the url column, whose oldest url is dropped when the table was full |
| History.DistinctUrlsKeepNewest | index.js:50-58 | FIFO eviction: adding distinct urls to an empty table leaves exactly the last MAX_URLS of them in order, and the first is gone once more than MAX_URLS were added |
| History.WellFormed | index.js:22-26 | the schema's guarantees on the table: AUTOINCREMENT ids increase in insertion order and stay below the next id, and the UNIQUE url column holds no duplicate (a definition; `AddKeepsWellFormed` proves addUrlToHistory keeps it) |
| History.HistoryStore.Valid | index.js:22-26 | the store's invariant: its table is `WellFormed` (the cap is not part of it, see above) |
| History.HistoryStore.GetLastUrls | index.js:36-44 | the read-only query on the store: `LastUrls` of its rows, which changes nothing (a function that only reads the store) |
| History.HistoryStore.Open | index.js:21-27 | opening the table leaves the store holding the existing rows, with the schema invariant |
| History.HistoryStore.AddUrlToHistory | index.js:46-61 | the in-place insert, count and conditional delete leave the store equal to `Add` of the old table, with the invariant kept |
| Text.IsWhitespace | index.js:121 | the code points `String.prototype.trim` removes: WhiteSpace (tab, vertical tab, form feed, space, no-break space, byte order mark and the Space_Separator characters) and LineTerminator (line feed, carriage return, line and paragraph separators), as ECMA-262 sections 12.2 and 12.3 list them; the same `trim` is applied to each paragraph at index.js:186 |
| Text.LeadingWhitespace | index.js:121 | counts at most the whole string |
| Text.LeadingWhitespaceStops | index.js:121 | the counted whitespace prefix ends at a character that is not whitespace |
| Text.LeadingWhitespaceIsWhitespace | index.js:121 | every character of the counted prefix is whitespace |
| Text.TrailingWhitespace | index.js:121 | counts at most the whole string |
| Text.TrailingWhitespaceStops | index.js:121 | the counted whitespace suffix begins after a character that is not whitespace |
| Text.TrailingWhitespaceIsWhitespace | index.js:121 | every character of the counted suffix is whitespace |
| Text.LeadingWhitespaceUnique | index.js:121 | whitespace up to a non-whitespace character is exactly the counted prefix |
| Text.TrailingWhitespaceUnique | index.js:121 | whitespace after a non-whitespace character is exactly the counted suffix |
| Text.Trim | index.js:121 | `trim()` never lengthens a string |
| Text.TrimIsTrimmed | index.js:121 | the result of `trim()` neither starts nor ends with whitespace |
| Text.TrimIsPadded | index.js:121 | the input is the result of `trim()` with whitespace before and after it |
| Text.TrimRemovesSurroundingWhitespace | index.js:121 | `trim()` is trimmed and padded back to the input by whitespace, and is empty exactly for an all-whitespace input |
| Text.PaddingIsSurroundingWhitespace | index.js:121 | a non-empty trimmed infix padded only by whitespace starts and ends where Trim cuts |
| Text.TrimIsUnique | index.js:121 | the result of `trim()` is the only trimmed string the input holds padded by whitespace |
| Text.TrimFixesTrimmed | index.js:121 | `trim()` leaves a string unchanged exactly when it is already trimmed |
| Text.TrimIdempotent | index.js:121 | trimming twice is trimming once |
| Text.AllBlankMeansEveryParagraph | index.js:185-187 | no paragraph survives the filter exactly when every paragraph is all whitespace |
| Text.Paragraphs | index.js:185-187 | `map(trim).filter(Boolean)` keeps at most the input's paragraphs, each non-empty and trimmed, and keeps none exactly when all are blank; which strings it keeps is fixed by the two rows below |
| Text.ParagraphsOfOne | index.js:185-187 | a single paragraph is kept as its `trim()` exactly when that is non-empty |
| Text.ParagraphsOfAppend | index.js:185-187 | `map(trim).filter(Boolean)` treats paragraphs one by one, in order: the result for two lists is the two results concatenated |
| Text.Join | index.js:188 | `join(sep)`: the strings with one separator between each pair (a definition; its properties are the two rows below) |
| Text.JoinEnds | index.js:188 | `join(sep)` of no strings is empty; otherwise it starts with the first string and ends with the last |
| Text.JoinOfAppend | index.js:188 | `join` of one string is that string, and each further string is appended after exactly one separator |
| Text.ArticleContent | index.js:185-188 | the article content is trimmed, and is empty exactly when no paragraph holds anything but whitespace |
| Handlers.Response.Status | index.js:74-226 | 400 exactly for a missing url, 404 exactly for no article link, 500 exactly for a rejected call, 200 otherwise |
| Handlers.Missing | index.js:74-77 | `!url`: the url is absent or the empty string (the same test as index.js:212) |
| Handlers.Navigation | index.js:98-109 | the `domcontentloaded` goto, then the `load` goto in the catch block only when the first rejected |
| Handlers.Reading | index.js:113-116 | the title read, the content read, then the record, each only when the step before resolved |
| Handlers.ExtractSession | index.js:92-116 | /extract's steps between the launch and the close: the page, the navigation, and the reads only when a navigation resolved |
| Handlers.ExtractSteps | index.js:85-128 | /extract's whole trace: the launch, and only if it resolved the session and the `finally` close |
| Handlers.ArticleVisit | index.js:178-199 | the article page, its single `domcontentloaded` goto, the reads and record, then `articlePage.close()` on success |
| Handlers.ArticleSteps | index.js:165-199 | the article part runs only for a non-empty href that getLastUrls did not return |
| Handlers.ScrapeSession | index.js:143-199 | /scrape-latest-one's steps between the launch and the close: the page, the home goto, the link query, then the article part |
| Handlers.ScrapeSteps | index.js:136-205 | /scrape-latest-one's whole trace: the launch, and only if it resolved the session and the `finally` close |
| Handlers.LinkResponse | index.js:157-197 | the response decision after the home page: 500 for a rejected `$eval`, 404 for a null or empty href, 200 with the url for a seen one, the article on full success, 500 otherwise |
| Handlers.FramedSessionClosesOnce | index.js:126-128 | a session framed by a successful launch and the `finally` close closes the browser exactly once, last |
| Handlers.RecordsOfAppend | index.js:116 | a concatenated trace records a url exactly when one of its parts does |
| Handlers.RecordedAfterReadsOfAppend | index.js:113-116 | recording only right after both reads carries over concatenation |
| Handlers.LoadOnlyAfterDomFailureOfAppend | index.js:98-109 | a `load` navigation only right after a failed `domcontentloaded` one carries over concatenation |
| Handlers.FramedSessionProtocol | index.js:85-128 | the launch and the close add no record and no navigation to a session |
| Handlers.ReadingProtocol | index.js:113-116 | reading records the url only after both reads, and exactly when both resolved |
| Handlers.ExtractSessionProtocol | index.js:92-116 | /extract's session records only after the reads, exactly when the page opened, a navigation and both reads resolved; `load` is tried exactly when the page opened and `domcontentloaded` rejected |
| Handlers.ArticleVisitProtocol | index.js:178-190 | the article visit records only after the reads, exactly when the page opened, the navigation and both reads resolved |
| Handlers.ScrapeSessionProtocol | index.js:143-190 | /scrape-latest-one's session records only after the reads, exactly when the whole scrape succeeds |
| Handlers.ExtractClosesBrowserOnce | index.js:85-128 | /extract: once chromium.launch resolved, the browser is closed exactly once, as the last step; otherwise never |
| Handlers.ExtractFallsBackOnlyAfterDomFailure | index.js:98-109 | /extract tries the `load` navigation only right after a failed `domcontentloaded` one, and exactly when the page opened and that one failed |
| Handlers.ExtractRecordsAfterReads | index.js:113-116 | /extract records the url only right after reading the title and the content, and exactly when every call resolved |
| Handlers.ScrapeClosesBrowserOnce | index.js:136-205 | /scrape-latest-one: once chromium.launch resolved, the browser is closed exactly once, as the last step, on every exit path |
| Handlers.ScrapeNeverFallsBack | index.js:150-180 | /scrape-latest-one makes only `domcontentloaded` navigations, with no `load` fallback |
| Handlers.ArticleVisitNeverFallsBack | index.js:180 | the article page is loaded with a single `domcontentloaded` navigation |
| Handlers.ScrapeRecordsAfterReads | index.js:183-190 | /scrape-latest-one records the article only right after reading title and paragraphs, and exactly when every call resolved |
| Handlers.LinkResponseCases | index.js:157-197 | after the home page loaded: 404 exactly for a null or empty href; "already seen" with the url exactly for a seen href; the article with its joined paragraphs exactly when every further call resolved; otherwise 500 |
| Handlers.ScrapeStopsAtHomePage | index.js:165-176 | without a usable new link the handler never opens the article page: launch, page, home page, link query, close |
| Handlers.Navigate | index.js:98-109 | navigation succeeds exactly when either attempt does; `load` is tried exactly when `domcontentloaded` rejected |
| Handlers.ExtractWithBrowser | index.js:92-122 | the steps are `ExtractSession`; it extracts the title and the trimmed content exactly when every call resolved, and then adds the url; otherwise 500 and the store is unchanged |
| Handlers.Extract | index.js:70-129 | 400 exactly for a missing url and 200 skip exactly for a seen one, both with no browser step; otherwise the steps are `ExtractSteps`, with the three protocol properties; the title and trimmed content, with the url added, exactly when every call resolved, and 500 with no change when any call rejected |
| Handlers.ScrapeArticle | index.js:178-199 | the steps are `ArticleVisit`; it returns the url, title and joined paragraphs exactly when every call resolved, and then adds the url; otherwise 500 and the store is unchanged |
| Handlers.FollowLink | index.js:157-197 | the response is `LinkResponse` of the urls getLastUrls returned, and the store changes exactly when the article is scraped |
| Handlers.ScrapeWithBrowser | index.js:143-199 | the steps are `ScrapeSession`; a page or home-page failure is 500; otherwise the response is `LinkResponse` |
| Handlers.ScrapeLatestOne | index.js:134-206 | the steps are `ScrapeSteps`; the browser is closed once; 404 and "seen" exactly in their cases; the article exactly when every call resolved, with the url then added; no other change |
| Handlers.Remember | index.js:208-226 | 400 for a missing url; 200 "already saved" for a seen one with no change; otherwise the url is added and then returned by getLastUrls |

## Left out

- Express routing, JSON bodies and serialisation, `/health`, the logging middleware, the `console.*` calls and the process-level error handlers (index.js:1-13, 29-34, 63-67, 228-232): plumbing with no decision in it. Responses are a datatype of kinds. `Response.Status` gives their HTTP codes, but not their message texts.
- Playwright: the browser is an oracle, given as the records `ExtractBrowser` and `ScrapeBrowser`. Rendering, `innerText` and CSS selector evaluation cannot be known without a DOM.
- The user agent and the launch arguments: these are constants passed to the browser, with no effect on the decisions.
- `page.waitForTimeout` and the `timeout: 60000` options: timing heuristics. A navigation that times out is a rejected navigation. The model assumes `waitForTimeout` always resolves.
- The SQLite engine and the database path: the table is a sequence of rows.
- Storage failures are not modelled: every cap and deduplication property assumes there are none. The insert, the count and the delete of `addUrlToHistory` (index.js:47-58) are three statements that each commit on their own, not one transaction. If the insert fails, the table is unchanged, so the url is not seen and the next request fetches it again. If the count or the delete fails, the url stays inserted. A failed delete also leaves the table one row over the cap that `Add` promises. Either way the handler fails with a 500: the catch blocks of /extract and /scrape-latest-one send it, and for /remember Express's default error handler does.
- `added_at` and its one-second ties: "newest" is insertion order (see above).
- Concurrency between requests: the calls are modelled as sequential.
- `browser.close()` and `articlePage.close()` always resolve. A rejected `articlePage.close()` after `res.json` would run the catch block's second response, which fails at run time. The model ignores it.
- Non-string `url` values in the JSON body (numbers, objects): a url is absent or a string.
- Strings are sequences of Unicode scalar values, not of UTF-16 code units, so lone surrogates cannot occur. Every whitespace code point `trim()` removes is in the Basic Multilingual Plane, so trimming and `includes` on well-formed strings are unaffected.
- Handlers.Remember: states that the url is then returned by getLastUrls only when the table was within the cap before the call. An oversized table left by an older file may hold the url among rows that are then evicted.
