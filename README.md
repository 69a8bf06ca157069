# A verified model of the smh-playwright-crawl crawl engine

This project models the core of `smh-playwright-crawl`, a same-domain,
breadth-first web crawler that renders pages in a headless browser. It covers:

- the link validator `is_valid_link`, with the text helpers `count_tokens` and
  `word_counter` (module `Utils`, `utils.dfy`);
- the page visitor (module `Visitor`, `visitor.dfy`):
  - the non-HTML skip of `fetch_page`;
  - the link filter `parse_links`;
  - `visit_url`, which turns one queued URL into an optional page record and
    the same-domain items it discovers;
- the crawl loop `crawl` and its multi-seed wrapper `crawl_multiple` (module
  `Crawler`, `crawler.dfy`).

`wrappers.dfy` holds the `Option` type. It stands for Python's `None` and for
a call that raised.

The model keeps the source's form:

- `parse_links` and `crawl` are loops in the source. They are methods here
  (`ParseLinks`, and `Crawl` with its helpers `Round`, `Collect` and `Admit`).
  `visit_url` is straight-line code around `parse_links` and three list
  comprehensions; it is the method `VisitUrl`, which calls `ParseLinks`.
- Each of these methods is proved equal to a specification function:
  `AcceptedLinks`, `PageVisit`, and `Run`/`Step` for the crawl.
- The properties of the crawler are proved about those functions.

The browser, BeautifulSoup, `urljoin`, the path component of `urlparse` and
`tldextract` are foreign code. They are the function fields of the datatype
`Visitor.Env`, and every result holds for every such function:

- `load` is `page.goto` followed by `page.content()`; `None` means it raised;
- `extract` is the parser's title, description, headings, text and anchors;
  `None` means it raised;
- `urljoin` is `urllib.parse.urljoin`; `None` means it raised (`urlsplit`'s
  `ValueError` on a malformed network location, such as the href
  `http://[x`), which makes `parse_links` raise and the visit fail;
- `pathOf` and `domainOf` are `urlparse(url).path` and `extract_domain`; they
  are taken never to raise (see "Left out").

The scheme rule of `urllib.parse.urlsplit` (which `urlparse` uses) is modelled
concretely as `Utils.UrlScheme`, following CPython 3.12: leading C0 controls
and spaces are stripped first, and a scheme must start with an ASCII letter
(older releases before their security updates lack both rules). That makes two facts provable: the
protocol-relative branch of `is_valid_link` can never reject a link, and
cutting the fragment off a URL keeps its http(s) scheme.

`crawl` need not terminate: its loop runs until no new URL turns up. `Run` and
`Crawl` therefore take a ghost parameter `universe`: a set of URLs that holds
the seed and is closed under discovery from that seed's domain. On a finite
site this is the set of its reachable URLs. The loop's termination is proved
from it. `CrawlMultiple` takes one such universe per seed, since each seed's
crawl runs on its own.

## Model

| member | source | states |
|---|---|---|
| `Utils.StripLeft` | smh-playwright-crawl/utils.py:8 | `str.strip`'s left half: the result is a suffix that does not start with whitespace, and everything dropped is whitespace |
| `Utils.StripRight` | smh-playwright-crawl/utils.py:8 | `str.strip`'s right half: the result is a prefix that does not end with whitespace, and everything dropped is whitespace |
| `Utils.Strip` | smh-playwright-crawl/utils.py:8 | `str.strip()`: no longer than the text, and neither starts nor ends with whitespace (with the contracts of `StripLeft` and `StripRight`, it drops exactly the surrounding whitespace) |
| `Utils.Lower` | smh-playwright-crawl/utils.py:8 | the model's `str.lower()` keeps the length (Python's does not for U+0130, see "Left out"); which characters it changes is `LowerChar`, and `LowerIdempotent` shows lower-casing twice is lower-casing once |
| `Utils.Normalize` | smh-playwright-crawl/utils.py:8 | the text the validator compares, `href.strip().lower()`; it has no contract of its own: `StripLower` and `IsValidLinkNormalized` state what it means |
| `Utils.StripEmptyIffBlank` | smh-playwright-crawl/utils.py:8-11 | stripping leaves the empty string exactly when the text is all whitespace |
| `Utils.StripIdempotent` | smh-playwright-crawl/utils.py:8 | stripping twice is stripping once |
| `Utils.StripLower` | smh-playwright-crawl/utils.py:8 | stripping and lower-casing commute |
| `Utils.IndexOf` | smh_playwright_crawl/crawler.py:60 | the position of the first occurrence of a character (or the length when it is absent): the character is there and nowhere before |
| `Utils.UrlScheme` | smh_playwright_crawl/crawler.py:57-58 | the scheme `urlparse` reports: leading C0 controls and spaces dropped, tab, CR and LF removed, then the text before the first `:` if it starts with a letter and holds only scheme characters, lower-cased; no contract of its own: `HttpPrefixScheme` and `SchemeSurvivesFragmentStrip` state its properties |
| `Utils.SanitisedScheme` | smh-playwright-crawl/utils.py:15-16 | the scheme rule on a sanitised URL (no contract of its own; used through `UrlScheme`, whose lemmas state what it gives) |
| `Utils.HttpPrefixScheme` | smh-playwright-crawl/utils.py:15 | `urlparse("http:" + h).scheme` is `http` whatever `h` is |
| `Utils.ProtocolRelativeNeverRejects` | smh-playwright-crawl/utils.py:14-17 | for an href starting with `//`, the scheme check always passes, so that branch never returns False |
| `Utils.IsValidLink` | smh-playwright-crawl/utils.py:5-18 | `is_valid_link`, branch by branch; it has no contract of its own: `IsValidLinkIff` characterises it for every input and the rows below state its cases |
| `Utils.IsValidLinkIff` | smh-playwright-crawl/utils.py:5-18 | a link is valid exactly when its trimmed, lower-cased form is neither one of the eight rejected literals nor starts with one of the seven rejected prefixes (the empty href included) |
| `Utils.BlankRejected` | smh-playwright-crawl/utils.py:6-11 | an empty or whitespace-only href is invalid |
| `Utils.IsValidLinkNormalized` | smh-playwright-crawl/utils.py:8 | validity does not depend on case or surrounding whitespace |
| `Utils.RejectedByPrefix` | smh-playwright-crawl/utils.py:12-13 | an href whose normalised form starts with a rejected prefix is invalid |
| `Utils.RejectedAsNone` | smh-playwright-crawl/utils.py:9-11 | an href whose normalised form is one of the rejected literals is invalid |
| `Utils.IsValidLinkRejectsHash` | smh-playwright-crawl/utils.py:9-11 | `#` is invalid |
| `Utils.IsValidLinkRejectsSlash` | smh-playwright-crawl/utils.py:9-11 | `/` is invalid |
| `Utils.IsValidLinkRejectsScript` | smh-playwright-crawl/utils.py:8-13 | `JavaScript:alert(1)` is invalid: the prefix test is made on the lower-cased text |
| `Utils.IsValidLinkRejectsMail` | smh-playwright-crawl/utils.py:12-13 | a `mailto:` link is invalid |
| `Utils.IsValidLinkAcceptsAbsolute` | smh-playwright-crawl/utils.py:5-18 | `https://example.com/page` is valid |
| `Utils.IsValidLinkAcceptsRelative` | smh-playwright-crawl/utils.py:5-18 | `/relative/path` is valid |
| `Utils.IsValidLinkAcceptsProtocolRelative` | smh-playwright-crawl/utils.py:14-18 | `//example.com/x` is valid |
| `Utils.CountTokens` | smh-playwright-crawl/utils.py:21-22 | the estimate is the length divided by four, rounded down: `4c <= len < 4c + 4` |
| `Utils.LeadingWord` | smh-playwright-crawl/utils.py:25 | the longest whitespace-free prefix, which `str.split()` takes as the next word |
| `Utils.Split` | smh-playwright-crawl/utils.py:25 | `str.split()`: strip the leading whitespace, take the leading word, repeat; no contract of its own: `SplitYieldsWords` and `WordCounterCountsRuns` state what it returns |
| `Utils.WordCounter` | smh-playwright-crawl/utils.py:24-25 | `len(text.split())`; no contract of its own: `WordCounterCountsRuns`, `WordCounterZeroIffBlank` and `WordCounterBound` state it |
| `Utils.WordCounterCountsRuns` | smh-playwright-crawl/utils.py:24-25 | `len(text.split())` equals an independent left-to-right count of the characters that start a run of non-whitespace |
| `Utils.SplitYieldsWords` | smh-playwright-crawl/utils.py:25 | every piece `str.split()` returns is non-empty and free of whitespace |
| `Utils.WordCounterZeroIffBlank` | smh-playwright-crawl/utils.py:24-25 | the word count is zero exactly for whitespace-only text |
| `Utils.WordCounterBound` | smh-playwright-crawl/utils.py:24-25 | there are at most `(len + 1) / 2` words |
| `Visitor.LastSegment` | smh_playwright_crawl/crawler.py:41 | `split(".")[-1]`: the longest dot-free suffix, preceded by a dot unless it is the whole string |
| `Visitor.IsSkipped` | smh_playwright_crawl/crawler.py:39-42 | the last dot-separated piece of the lower-cased path is one of the fourteen listed extensions; no contract of its own: `ExtensionSkipped` states when it holds |
| `Visitor.FetchPage` | smh_playwright_crawl/crawler.py:38-46 | `fetch_page`: `""` for a skipped resource, otherwise the loaded HTML or `None` when loading raises; no contract of its own: `SkippedNeverLoads` and `FailedVisitIsEmpty` state its cases |
| `Visitor.ExtensionSkipped` | smh_playwright_crawl/crawler.py:39-44 | a path ending in `.` plus a listed extension, in any case, is skipped |
| `Visitor.SkippedNeverLoads` | smh_playwright_crawl/crawler.py:41-46 | a skipped resource gives `""` without consulting the browser, so `visit_url` returns `(None, [])` |
| `Visitor.FailedVisitIsEmpty` | smh_playwright_crawl/crawler.py:69-105 | a navigation that raises, an empty page, a parser failure or a `urljoin` that raises inside `parse_links` gives `(None, [])` |
| `Visitor.StripFragment` | smh_playwright_crawl/crawler.py:60 | `split('#')[0]` is the longest prefix of the URL without `#`: the result is a prefix, holds no `#`, and is followed by `#` unless it is the whole URL |
| `Visitor.SchemeSurvivesFragmentStrip` | smh_playwright_crawl/crawler.py:57-60 | cutting the fragment off a URL whose scheme is http(s) leaves that scheme unchanged |
| `Visitor.LinkOf` | smh_playwright_crawl/crawler.py:53-63 | the body of the `parse_links` loop for one anchor, when `urljoin` does not raise: at most one link; `InvalidHrefNoLink` and `AcceptedAnchorKept` state when there is one and what it is, and `LinkOfScheme` that it is well formed |
| `Visitor.AcceptedLinks` | smh_playwright_crawl/crawler.py:49-64 | the links `parse_links` returns: `LinkOf` of each anchor, in anchor order; no contract of its own: the lemmas below state its properties |
| `Visitor.JoinFails` | smh_playwright_crawl/crawler.py:54-56 | `parse_links` raises exactly when `urljoin` raises on the href of an anchor that passed the validator (a predicate with no contract; `ParseLinks` and `FailedVisitIsEmpty` state its effect) |
| `Visitor.ParseLinks` | smh_playwright_crawl/crawler.py:49-64 | the loop raises (returns `None`) exactly when `JoinFails`, and otherwise returns `AcceptedLinks`: for each anchor in order, one link (its text and fragment-free resolved URL) if and only if the raw href, the scheme and the fragment-free URL all pass |
| `Visitor.AcceptedLinksWellFormed` | smh_playwright_crawl/crawler.py:52-63 | every returned link is valid, has no fragment and has an http(s) scheme, and there are at most as many links as anchors |
| `Visitor.AcceptedLinksAppend` | smh_playwright_crawl/crawler.py:52-63 | the filter keeps order: the links of two runs of anchors are those of the first run followed by those of the second |
| `Visitor.InvalidHrefDropped` | smh_playwright_crawl/crawler.py:53-55 | an anchor whose raw href is invalid contributes nothing, wherever it stands |
| `Visitor.AcceptedAnchorKept` | smh_playwright_crawl/crawler.py:53-63 | an anchor that passes all three checks contributes exactly its link, at its own place |
| `Visitor.SameDomainItems` | smh_playwright_crawl/crawler.py:100-101 | the new items: at most one per link; `SameDomainItemsExact` states which |
| `Visitor.SameDomainItemsExact` | smh_playwright_crawl/crawler.py:100-101 | the new items are exactly the links whose domain is the base domain: each item comes from such a link, and each such link gives an item |
| `Visitor.SameDomainItemsAppend` | smh_playwright_crawl/crawler.py:100-101 | the same-domain filter keeps link order |
| `Visitor.PageVisit` | smh_playwright_crawl/crawler.py:67-107 | what `visit_url` returns; no contract of its own: `PageVisitRecord`, `PageVisitSameDomain`, `NoRecordNoItems`, `SkippedNeverLoads` and `FailedVisitIsEmpty` state it |
| `Visitor.VisitUrl` | smh_playwright_crawl/crawler.py:67-107 | the method returns `PageVisit`: `(None, [])` on a skipped, failed or empty page or when `parse_links` raises, and otherwise the record and the same-domain items |
| `Visitor.PageVisitRecord` | smh_playwright_crawl/crawler.py:73-102 | a rendered page on which `urljoin` never raises gives a record with the page's URL, title, description, headings and text, all accepted links of any domain (each well formed), summary `""`, the URL's domain, `len // 4` tokens and the word count; the new items are its same-domain links in order |
| `Visitor.PageVisitSameDomain` | smh_playwright_crawl/crawler.py:99-102 | every item a visit discovers is in the base domain |
| `Visitor.NoRecordNoItems` | smh_playwright_crawl/crawler.py:71-72 | a visit without a record discovers nothing |
| `Crawler.SliceIndex` | smh_playwright_crawl/crawler.py:130 | where Python's `queue[:n]` ends for any integer `n`, clamped to the list: never past its end |
| `Crawler.SliceIndexBounds` | smh_playwright_crawl/crawler.py:130 | `queue[:n]`/`queue[n:]` split at `min(n, len)` for `n >= 0`; with `n >= 1` a non-empty queue gives a batch of 1 to `n` items; with `n <= 0` a one-item queue gives an empty batch |
| `Crawler.Added` | smh_playwright_crawl/crawler.py:140-144 | the items the collecting loop appends for a run of discoveries; no contract of its own: `AddedExact` and `AddedAppend` state it |
| `Crawler.Admit` | smh_playwright_crawl/crawler.py:140-144 | the loop appends the discovered items whose URL is not yet visited (marking each), in order |
| `Crawler.Collect` | smh_playwright_crawl/crawler.py:137-144 | the loop over the gathered visits keeps every record in order and admits the discoveries of each visit in turn |
| `Crawler.Round` | smh_playwright_crawl/crawler.py:130-144 | one iteration of the `while` loop computes `Step`: slice the batch, mark it visited, visit each item in batch order, collect |
| `Crawler.Crawl` | smh_playwright_crawl/crawler.py:118-146 | `crawl` returns the records of `CrawlSpec`, the rounds of `Step` run until the queue is empty |
| `Crawler.AddedAppend` | smh_playwright_crawl/crawler.py:137-144 | admitting the discoveries of two visits one after the other admits what admitting them together does |
| `Crawler.AddedExact` | smh_playwright_crawl/crawler.py:140-144 | the admitted items are exactly the discovered items whose URL was not visited, each URL once |
| `Crawler.AllNewCovers` | smh_playwright_crawl/crawler.py:137-144 | every visit's discoveries are among the discoveries of the batch |
| `Crawler.Step` | smh_playwright_crawl/crawler.py:129-144 | one iteration of the `while` loop: slice the batch, mark it, visit it in order, collect the records and admit the discoveries; no contract of its own: `StepIsFifo`, `VisitedGrows`, `StepProgress` and `StepKeepsGood` state it |
| `Crawler.Run` | smh_playwright_crawl/crawler.py:128-144 | the rounds of `Step` until the queue is empty; the final queue is empty, and the loop's termination is proved by `StepProgress` |
| `Crawler.VisitedGrows` | smh_playwright_crawl/crawler.py:131-143 | a round never removes a URL from the visited set, and marks the whole batch |
| `Crawler.StepIsFifo` | smh_playwright_crawl/crawler.py:130-144 | a round dispatches the first `min(maxTabs, len)` queued items, keeps the rest at the front of the queue, and appends only at the back |
| `Crawler.ZeroTabsStall` | smh_playwright_crawl/crawler.py:128-130 | with `max_tabs <= 0` the first round changes nothing, so the loop never ends |
| `Crawler.StepProgress` | smh_playwright_crawl/crawler.py:128-144 | with at least one tab, a round on a non-empty queue visits a new URL of the universe or shortens the queue, so the loop ends |
| `Crawler.StepKeepsGood` | smh_playwright_crawl/crawler.py:128-144 | every round keeps the loop invariant `Good`: the seed first; no URL twice among the dispatched and queued items; visited set between the dispatched URLs and the dispatched-or-queued ones; every queued item but the head visited, and once anything was dispatched every queued item visited; all items in the seed's domain; discoveries visited; results the records of the dispatched pages in order |
| `Crawler.QueuedVisited` | smh_playwright_crawl/crawler.py:123-144 | after any round every queued URL is already visited: only the seed, before the first round, waits in the queue unvisited |
| `Crawler.RunKeepsGood` | smh_playwright_crawl/crawler.py:128-144 | every run of rounds keeps `Good` |
| `Crawler.CrawlGuarantees` | smh_playwright_crawl/crawler.py:118-146 | a finished crawl dispatched the seed first, no URL twice and only URLs of the seed's domain; the visited set is exactly the dispatched URLs; every URL a dispatched page discovers was dispatched; and the results are the records of the dispatched pages in dispatch order, at most one per page |
| `Crawler.CrawlAll` | smh_playwright_crawl/crawler.py:150-151 | the seeds' crawl records one after the other, each crawl bounded by its own universe; no contract of its own: `CrawlMultiple` and `CrawlAllBlock` state it |
| `Crawler.CrawlMultiple` | smh_playwright_crawl/crawler.py:149-152 | `crawl_multiple` returns the concatenation of each seed's crawl results, each seed crawled with its own universe |
| `Crawler.CrawlAllBlock` | smh_playwright_crawl/crawler.py:150-151 | the records of each seed form one contiguous block, after those of the earlier seeds and before those of the later ones |

## Left out

- Playwright, BeautifulSoup, `urljoin`, the path component of `urlparse` and
  `tldextract` are not modelled. They are the function fields of `Env`. The
  values the parser extracts (visible text, title, meta description, `h1`-`h3`
  headings, anchor `href` and text) arrive ready-made in `PageContent`.
- `parse_links` takes the parser's anchors rather than the HTML, so parsing
  the same HTML twice (once in `visit_url`, once in `parse_links`) is one
  extraction in the model.
- Concurrency is not modelled. `asyncio.gather` returns results in task
  order, so a batch is modelled as visits in batch order. The visited-set lock
  and the concurrent crawls of `crawl_multiple` are left out for the same
  reason. In the source only one coroutine touches each crawl's queue and
  visited set.
- Logging, the browser and context lifecycle, `browser_context_manager`,
  `set_playwright_event_loop_if_needed`, the command line (`cli.py`) and the
  JSON output are not modelled.
- `Seed.headless` and `Seed.request_timeout` only configure the browser. They
  are kept as fields, but nothing reads them. The defaults of `Seed`
  (headless, 30000 ms, 15 tabs) have no counterpart, since Dafny datatypes
  have no default values.
- Utils.Lower: lower-cases only `A`-`Z` and the Kelvin sign U+212A, and keeps
  the length. These are the only characters whose Python lower case is one
  ASCII letter, which is all the comparisons against ASCII literals in the
  source depend on. Other characters are left unchanged, so the case folding
  of other scripts is not modelled. Python lowers U+0130 to two characters,
  `i` and U+0307, which the model does not do either. No verdict changes:
  every `i` in a rejected literal, a rejected prefix or a skipped extension
  (`javascript:`, `mailto:`, `void(`, `gif`, `zip`) is followed by another
  ASCII character, never by U+0307, and U+0130 itself matches nothing.
- `urlsplit` raises `ValueError` on a malformed bracketed host, and on a
  non-ASCII network location whose NFKC normal form holds one of `/ ? # @ :`
  (for instance `//a`, U+2100, `b`). Inside `is_valid_link` (its `//` branch,
  `smh-playwright-crawl/utils.py:15`) it would then raise instead of
  answering, `parse_links` would raise, and `visit_url` would return
  `(None, [])`. This path is not modelled: `Utils.IsValidLink` answers for
  every text, and Unicode normalisation is not modelled. The same error
  raised by `urljoin` (`smh_playwright_crawl/crawler.py:56`) IS modelled,
  through `Visitor.JoinFails`; `urlparse(resolved)` at line 57 parses a URL
  `urljoin` has already parsed and is taken not to raise.
- `urlparse(url).path` in `fetch_page` and `extract_domain` are modelled as
  functions that always return (`Env.pathOf`, `Env.domainOf`).
- Crawler.Crawl: requires at least one tab and a finite universe of URLs
  that holds the seed and is closed under discovery. The source demands
  neither. With `max_tabs <= 0` it loops forever (see `Crawler.ZeroTabsStall`),
  and a crawl of an unbounded site does not terminate in the source either.
- Crawler.CrawlMultiple: requires the same of every seed, each seed with a
  universe of its own, for the same reason.
- The result entries are kept whenever `visit_url` returns a record
  (`if res:`). A Python dictionary with ten keys is always truthy, so no
  record is ever dropped there.
- Depth: `smh_playwright_crawl/cli.py:44` passes `max_depth=` to `Seed`, but
  `Seed` (`smh_playwright_crawl/crawler.py:110-115`) has no such field, and
  `CrawlItem` holds only a URL. The crawl has no depth bound: its loop is one
  FIFO queue cut into `max_tabs`-sized batches, and the model follows that
  loop.
