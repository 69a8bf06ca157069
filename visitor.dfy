/**
 * The page visitor of the crawler: the non-HTML skip of `fetch_page`, the link
 * filter `parse_links` and `visit_url`, which turns one URL into an optional
 * page record and the same-domain items it discovers.
 *
 * The browser, the HTML parser, `urljoin`, the path component of `urlparse`
 * and the registrable-domain extractor are foreign code; they are the function
 * values of an `Env`.
 */
module Visitor {
  import opened Wrappers
  import opened Utils

  /** A queued URL (`CrawlItem`): the source's item carries the URL only. */
  datatype CrawlItem = CrawlItem(url: string)

  /** One `a` element with an `href`: its raw `href` and its stripped text. */
  datatype Anchor = Anchor(href: string, text: string)

  /** A link kept in a page record. */
  datatype Link = Link(text: string, url: string)

  /** What the HTML parser extracts from a page: its visible text, title,
      meta description, `h1`-`h3` headings and anchors, in document order. */
  datatype PageContent = PageContent(
    text: string, title: string, description: string,
    headings: seq<string>, anchors: seq<Anchor>)

  /** The dictionary `visit_url` builds for a rendered page. */
  datatype PageRecord = PageRecord(
    url: string, title: string, description: string, headings: seq<string>,
    links: seq<Link>, summary: string, domain: string,
    tokens: nat, wordCount: nat, rawText: string)

  /** `urljoin(base, href)`; `None` stands for the `ValueError` that
      `urlsplit` raises on a malformed network location. */
  type Joiner = (string, string) -> Option<string>

  /** The pair `visit_url` returns. */
  datatype Visit = Visit(record: Option<PageRecord>, newItems: seq<CrawlItem>)

  /** The foreign collaborators of a visit. A `None` result stands for an
      exception (navigation timeout, network error, a parser failure). */
  datatype Env = Env(
    pathOf: string -> string,                // urlparse(url).path
    load: string -> Option<string>,          // page.goto(url) then page.content()
    extract: string -> Option<PageContent>,  // BeautifulSoup extraction of the HTML
    urljoin: Joiner,                         // urljoin(base, href)
    domainOf: string -> string)              // extract_domain(url)

  function UrlSet(items: seq<CrawlItem>): set<string> {
    set it | it in items :: it.url
  }

  // ---------------------------------------------------------------------
  // fetch_page
  // ---------------------------------------------------------------------

  /** The extensions `fetch_page` does not navigate to. */
  const SkipExts: set<string> := {
    "pdf", "jpg", "jpeg", "png", "gif", "svg",
    "doc", "docx", "xls", "xlsx", "zip", "rar", "tar", "gz"}

  /** `s.split(".")[-1]`: the longest suffix of `s` without a dot. */
  function LastSegment(s: string): (r: string)
    ensures |r| <= |s| && r == s[|s| - |r|..]
    ensures '.' !in r
    ensures |r| == |s| || s[|s| - |r| - 1] == '.'
  {
    if s == [] then []
    else if s[|s| - 1] == '.' then []
    else LastSegment(s[..|s| - 1]) + [s[|s| - 1]]
  }

  /** Whether the lower-cased path of `url` ends in a non-HTML extension. */
  predicate IsSkipped(url: string, env: Env) {
    LastSegment(Lower(env.pathOf(url))) in SkipExts
  }

  /** `fetch_page`: the empty string for a skipped resource, without
      navigating; otherwise the rendered HTML, or `None` when it raises. */
  function FetchPage(url: string, env: Env): Option<string> {
    if IsSkipped(url, env) then Some("") else env.load(url)
  }

  // ---------------------------------------------------------------------
  // parse_links
  // ---------------------------------------------------------------------

  /** `s.split('#')[0]`: the text before the first `#`. */
  function StripFragment(s: string): (r: string)
    ensures |r| <= |s| && r == s[..|r|]
    ensures '#' !in r
    ensures |r| == |s| || s[|r|] == '#'
  {
    s[..IndexOf(s, '#')]
  }

  /** The link one anchor contributes, if it passes the three checks of
      `parse_links`: a valid raw href, an http(s) resolved URL, and a valid
      URL once the fragment is cut off. */
  function LinkOf(a: Anchor, baseUrl: string, urljoin: Joiner): (r: seq<Link>)
    ensures |r| <= 1
  {
    if !IsValidLink(a.href) then []
    else
      match urljoin(baseUrl, a.href)
      case None => []  // `parse_links` raises here; see `JoinFails`
      case Some(resolved) =>
        if UrlScheme(resolved) !in {"http", "https"} then []
        else
          var url := StripFragment(resolved);
          if !IsValidLink(url) then [] else [Link(a.text, url)]
  }

  /** Whether `parse_links` raises: `urljoin` raises on the href of some
      anchor that passed the validator. */
  predicate JoinFails(anchors: seq<Anchor>, baseUrl: string, urljoin: Joiner) {
    exists a :: a in anchors && IsValidLink(a.href) && urljoin(baseUrl, a.href).None?
  }

  /** What every link `parse_links` returns satisfies: a valid URL with no
      fragment and an http or https scheme. */
  predicate WellFormedLink(l: Link) {
    IsValidLink(l.url) && '#' !in l.url && UrlScheme(l.url) in {"http", "https"}
  }

  /** `[y for x in xs for y in f(x)]`. */
  function FlatMap<A, B>(xs: seq<A>, f: A -> seq<B>): seq<B> {
    if xs == [] then [] else FlatMap(xs[..|xs| - 1], f) + f(xs[|xs| - 1])
  }

  /** The links `parse_links` returns: those of each anchor, in anchor order. */
  function AcceptedLinks(anchors: seq<Anchor>, baseUrl: string, urljoin: Joiner): seq<Link> {
    FlatMap(anchors, a => LinkOf(a, baseUrl, urljoin))
  }

  /** `parse_links`, over the anchors the HTML parser found. */
  method ParseLinks(anchors: seq<Anchor>, baseUrl: string, urljoin: Joiner)
    returns (links: Option<seq<Link>>)
    ensures links.None? <==> JoinFails(anchors, baseUrl, urljoin)
    ensures links.Some? ==> links.value == AcceptedLinks(anchors, baseUrl, urljoin)
  {
    var acc := [];
    for i := 0 to |anchors|
      invariant acc == AcceptedLinks(anchors[..i], baseUrl, urljoin)
      invariant !JoinFails(anchors[..i], baseUrl, urljoin)
    {
      AcceptedLinksPrefix(anchors, i, baseUrl, urljoin);
      JoinFailsPrefix(anchors, i, baseUrl, urljoin);
      var a := anchors[i];
      if !IsValidLink(a.href) {
        continue;
      }
      var joined := urljoin(baseUrl, a.href);
      if joined.None? {
        assert a in anchors;
        return None;
      }
      var resolved := joined.value;
      if UrlScheme(resolved) !in {"http", "https"} {
        continue;
      }
      var urlWithoutFragment := StripFragment(resolved);
      if !IsValidLink(urlWithoutFragment) {
        continue;
      }
      acc := acc + [Link(a.text, urlWithoutFragment)];
    }
    assert anchors[..|anchors|] == anchors;
    links := Some(acc);
  }

  // ---------------------------------------------------------------------
  // visit_url
  // ---------------------------------------------------------------------

  /** `[CrawlItem(link.url) for link in links if extract_domain(link.url) == base_domain]` */
  function SameDomainItems(links: seq<Link>, baseDomain: string, domainOf: string -> string): (items: seq<CrawlItem>)
    ensures |items| <= |links|
  {
    if links == [] then []
    else
      var n := |links| - 1;
      var front := SameDomainItems(links[..n], baseDomain, domainOf);
      if domainOf(links[n].url) == baseDomain then front + [CrawlItem(links[n].url)] else front
  }

  /** What `visit_url` returns for `url`: `(None, [])` for a skipped,
      failed or empty page, and when `parse_links` raises; otherwise the page record, whose `links` keep
      every accepted link, and the items of the same-domain links only. */
  function PageVisit(url: string, baseDomain: string, env: Env): Visit {
    match FetchPage(url, env)
    case None => Visit(None, [])
    case Some(html) =>
      if html == "" then Visit(None, [])
      else
        match env.extract(html)
        case None => Visit(None, [])
        case Some(page) =>
          if JoinFails(page.anchors, url, env.urljoin) then Visit(None, [])
          else
            var links := AcceptedLinks(page.anchors, url, env.urljoin);
            var record := PageRecord(
              url, page.title, page.description, page.headings, links, "",
              env.domainOf(url), CountTokens(page.text), WordCounter(page.text), page.text);
            Visit(Some(record), SameDomainItems(links, baseDomain, env.domainOf))
  }

  /** `visit_url`. */
  method VisitUrl(item: CrawlItem, baseDomain: string, env: Env)
    returns (record: Option<PageRecord>, newItems: seq<CrawlItem>)
    ensures Visit(record, newItems) == PageVisit(item.url, baseDomain, env)
  {
    var html := FetchPage(item.url, env);
    if html.None? || html.value == "" {
      return None, [];
    }
    var page := env.extract(html.value);
    if page.None? {
      return None, [];
    }
    var text := page.value.text;
    var parsed := ParseLinks(page.value.anchors, item.url, env.urljoin);
    if parsed.None? {
      return None, [];
    }
    var links := parsed.value;
    var domain := env.domainOf(item.url);
    record := Some(PageRecord(
      item.url, page.value.title, page.value.description, page.value.headings,
      links, "", domain, CountTokens(text), WordCounter(text), text));
    newItems := SameDomainItems(links, baseDomain, env.domainOf);
  }

  // ---------------------------------------------------------------------
  // Lemmas
  // ---------------------------------------------------------------------

  lemma {:induction false} StripC0LeftAppend(a: string, b: string)
    requires StripC0Left(a) != []
    ensures StripC0Left(a + b) == StripC0Left(a) + b
    decreases |a|
  {
    assert (a + b)[0] == a[0];
    if a[0] <= ' ' {
      assert (a + b)[1..] == a[1..] + b;
      StripC0LeftAppend(a[1..], b);
    }
  }

  lemma {:induction false} StripC0LeftAllStripped(a: string, b: string)
    requires StripC0Left(a) == []
    ensures StripC0Left(a + b) == StripC0Left(b)
    decreases |a|
  {
    if a == [] {
      assert a + b == b;
    } else {
      assert (a + b)[1..] == a[1..] + b;
      StripC0LeftAllStripped(a[1..], b);
    }
  }

  /** On a sanitised URL, text from a `#` onwards never changes a non-empty
      scheme: the scheme ends at a `:` before any `#`. */
  lemma SchemeBeforeHash(ua: string, ub: string)
    requires ub == [] || ub[0] == '#'
    requires SanitisedScheme(ua + ub) != ""
    ensures SanitisedScheme(ua) == SanitisedScheme(ua + ub)
  {
    var u := ua + ub;
    var i := IndexOf(u, ':');
    assert 0 < i < |u| && forall k :: 0 <= k < i ==> IsSchemeChar(u[k]);
    if ub != [] {
      assert u[|ua|] == '#';
      assert !IsSchemeChar(u[|ua|]);
    }
    assert i < |ua| && ua[i] == ':';
    assert IndexOf(ua, ':') <= i;
    IndexOfAppend(ua, ub, ':');
    assert IndexOf(ua, ':') == i;
    assert u[..i] == ua[..i];
    assert forall k :: 0 <= k < i ==> ua[k] == u[k];
  }

  /** Cutting the fragment off a URL leaves its scheme as it was, when that
      scheme is http or https. */
  lemma SchemeSurvivesFragmentStrip(s: string)
    requires UrlScheme(s) in {"http", "https"}
    ensures UrlScheme(StripFragment(s)) == UrlScheme(s)
  {
    var a := StripFragment(s);
    var b := s[|a|..];
    assert s == a + b;
    assert b != [] ==> b[0] == '#';
    if StripC0Left(a) == [] {
      StripC0LeftAllStripped(a, b);
      assert false;
    } else {
      StripC0LeftAppend(a, b);
      RemoveUnsafeAppend(StripC0Left(a), b);
      assert RemoveUnsafe(b) == [] || RemoveUnsafe(b)[0] == '#';
      SchemeBeforeHash(RemoveUnsafe(StripC0Left(a)), RemoveUnsafe(b));
    }
  }

  lemma LinkOfScheme(a: Anchor, baseUrl: string, urljoin: Joiner)
    ensures forall l :: l in LinkOf(a, baseUrl, urljoin) ==> WellFormedLink(l)
  {
    if LinkOf(a, baseUrl, urljoin) != [] {
      var resolved := urljoin(baseUrl, a.href).value;
      assert UrlScheme(resolved) in {"http", "https"};
      SchemeSurvivesFragmentStrip(resolved);
    }
  }

  lemma {:induction false} FlatMapAppend<A, B>(xs: seq<A>, ys: seq<A>, f: A -> seq<B>)
    ensures FlatMap(xs + ys, f) == FlatMap(xs, f) + FlatMap(ys, f)
    decreases |ys|
  {
    if ys == [] {
      assert xs + ys == xs;
    } else {
      var n := |ys| - 1;
      assert (xs + ys)[..|xs| + n] == xs + ys[..n];
      assert (xs + ys)[|xs| + n] == ys[n];
      FlatMapAppend(xs, ys[..n], f);
    }
  }

  lemma AppendAssoc<T>(a: seq<T>, b: seq<T>, c: seq<T>)
    ensures (a + b) + c == a + (b + c)
  {
  }

  /** The image of `xs[i]` is one block of the flat map, between those of
      the elements before and after it. */
  lemma FlatMapBlock<A, B>(xs: seq<A>, i: nat, f: A -> seq<B>)
    requires i < |xs|
    ensures FlatMap(xs, f) == FlatMap(xs[..i], f) + f(xs[i]) + FlatMap(xs[i + 1..], f)
  {
    FlatMapSingle(xs[i], f);
    FlatMapSplit(xs, i, f);
    FlatMapAppend([xs[i]], xs[i + 1..], f);
    AppendAssoc(FlatMap(xs[..i], f), f(xs[i]), FlatMap(xs[i + 1..], f));
  }

  lemma FlatMapSingle<A, B>(x: A, f: A -> seq<B>)
    ensures FlatMap([x], f) == f(x)
  {
    assert [x][..0] == [];
  }

  lemma FlatMapSplit<A, B>(xs: seq<A>, i: nat, f: A -> seq<B>)
    requires i < |xs|
    ensures FlatMap(xs, f) == FlatMap(xs[..i], f) + FlatMap([xs[i]] + xs[i + 1..], f)
  {
    SplitAt(xs, i);
    FlatMapAppend(xs[..i], [xs[i]] + xs[i + 1..], f);
  }

  lemma SplitAt<T>(xs: seq<T>, i: nat)
    requires i < |xs|
    ensures xs == xs[..i] + ([xs[i]] + xs[i + 1..])
  {
    assert xs[i..] == [xs[i]] + xs[i + 1..];
    assert xs == xs[..i] + xs[i..];
  }

  lemma {:induction false} FlatMapSource<A, B>(xs: seq<A>, f: A -> seq<B>, y: B)
    requires y in FlatMap(xs, f)
    ensures exists x :: x in xs && y in f(x)
    decreases |xs|
  {
    var n := |xs| - 1;
    if y in FlatMap(xs[..n], f) {
      FlatMapSource(xs[..n], f, y);
      var x :| x in xs[..n] && y in f(x);
      assert x in xs;
    } else {
      assert xs[n] in xs;
    }
  }

  lemma {:induction false} FlatMapBound<A, B>(xs: seq<A>, f: A -> seq<B>)
    requires forall x :: x in xs ==> |f(x)| <= 1
    ensures |FlatMap(xs, f)| <= |xs|
    decreases |xs|
  {
    if xs != [] {
      var n := |xs| - 1;
      assert forall x :: x in xs[..n] ==> x in xs;
      assert xs[n] in xs;
      FlatMapBound(xs[..n], f);
    }
  }

  /** Every link parse_links returns is valid, fragment-free and http(s),
      and there is at most one per anchor. */
  lemma AcceptedLinksWellFormed(anchors: seq<Anchor>, baseUrl: string, urljoin: Joiner)
    ensures forall l :: l in AcceptedLinks(anchors, baseUrl, urljoin) ==> WellFormedLink(l)
    ensures |AcceptedLinks(anchors, baseUrl, urljoin)| <= |anchors|
  {
    var f := a => LinkOf(a, baseUrl, urljoin);
    forall l | l in FlatMap(anchors, f)
      ensures WellFormedLink(l)
    {
      FlatMapSource(anchors, f, l);
      var a :| a in anchors && l in f(a);
      LinkOfScheme(a, baseUrl, urljoin);
    }
    FlatMapBound(anchors, f);
  }

  /** parse_links is an order-preserving filter: the links of two runs of
      anchors are the links of the first run followed by those of the second. */
  lemma AcceptedLinksAppend(a: seq<Anchor>, b: seq<Anchor>, baseUrl: string, urljoin: Joiner)
    ensures AcceptedLinks(a + b, baseUrl, urljoin) == AcceptedLinks(a, baseUrl, urljoin) + AcceptedLinks(b, baseUrl, urljoin)
  {
    FlatMapAppend(a, b, a => LinkOf(a, baseUrl, urljoin));
  }

  lemma AcceptedLinksSingle(a: Anchor, baseUrl: string, urljoin: Joiner)
    ensures AcceptedLinks([a], baseUrl, urljoin) == LinkOf(a, baseUrl, urljoin)
  {
    var f := x => LinkOf(x, baseUrl, urljoin);
    assert [a][..0] == [];
    assert FlatMap([a], f) == FlatMap([], f) + f(a);
  }

  lemma AcceptedLinksPrefix(anchors: seq<Anchor>, i: nat, baseUrl: string, urljoin: Joiner)
    requires i < |anchors|
    ensures AcceptedLinks(anchors[..i + 1], baseUrl, urljoin)
         == AcceptedLinks(anchors[..i], baseUrl, urljoin) + LinkOf(anchors[i], baseUrl, urljoin)
  {
    var f := x => LinkOf(x, baseUrl, urljoin);
    assert anchors[..i + 1][..i] == anchors[..i];
    assert FlatMap(anchors[..i + 1], f) == FlatMap(anchors[..i], f) + f(anchors[i]);
  }

  /** `urljoin` fails on the first `i + 1` anchors exactly when it fails on
      the first `i` or on anchor `i`. */
  lemma JoinFailsPrefix(anchors: seq<Anchor>, i: nat, baseUrl: string, urljoin: Joiner)
    requires i < |anchors|
    ensures JoinFails(anchors[..i + 1], baseUrl, urljoin)
        <==> JoinFails(anchors[..i], baseUrl, urljoin)
             || (IsValidLink(anchors[i].href) && urljoin(baseUrl, anchors[i].href).None?)
  {
    assert anchors[..i + 1] == anchors[..i] + [anchors[i]];
  }

  lemma InvalidHrefNoLink(a: Anchor, baseUrl: string, urljoin: Joiner)
    requires !IsValidLink(a.href)
    ensures LinkOf(a, baseUrl, urljoin) == []
  {
  }

  /** An anchor whose raw href fails the validator contributes no link,
      wherever it stands. */
  lemma InvalidHrefDropped(pre: seq<Anchor>, a: Anchor, post: seq<Anchor>, baseUrl: string, urljoin: Joiner)
    requires !IsValidLink(a.href)
    ensures AcceptedLinks(pre + [a] + post, baseUrl, urljoin)
         == AcceptedLinks(pre, baseUrl, urljoin) + AcceptedLinks(post, baseUrl, urljoin)
  {
    InvalidHrefNoLink(a, baseUrl, urljoin);
    AcceptedLinksSingle(a, baseUrl, urljoin);
    AcceptedLinksAppend(pre, [a], baseUrl, urljoin);
    assert AcceptedLinks(pre + [a], baseUrl, urljoin) == AcceptedLinks(pre, baseUrl, urljoin);
    AcceptedLinksAppend(pre + [a], post, baseUrl, urljoin);
  }

  /** An anchor that passes all three checks contributes its text and its
      fragment-free resolved URL, at its own place. */
  lemma AcceptedAnchorKept(pre: seq<Anchor>, a: Anchor, post: seq<Anchor>, baseUrl: string, urljoin: Joiner,
                           resolved: string)
    requires IsValidLink(a.href)
    requires urljoin(baseUrl, a.href) == Some(resolved)
    requires UrlScheme(resolved) in {"http", "https"}
    requires IsValidLink(StripFragment(resolved))
    ensures AcceptedLinks(pre + [a] + post, baseUrl, urljoin)
         == AcceptedLinks(pre, baseUrl, urljoin) + [Link(a.text, StripFragment(resolved))]
            + AcceptedLinks(post, baseUrl, urljoin)
  {
    AcceptedLinksAppend(pre + [a], post, baseUrl, urljoin);
    AcceptedLinksAppend(pre, [a], baseUrl, urljoin);
    AcceptedLinksSingle(a, baseUrl, urljoin);
  }

  /** The same-domain filter keeps the order of the links. */
  lemma {:induction false} SameDomainItemsAppend(a: seq<Link>, b: seq<Link>, baseDomain: string, domainOf: string -> string)
    ensures SameDomainItems(a + b, baseDomain, domainOf)
         == SameDomainItems(a, baseDomain, domainOf) + SameDomainItems(b, baseDomain, domainOf)
    decreases |b|
  {
    if b == [] {
      assert a + b == a;
    } else {
      var n := |b| - 1;
      assert (a + b)[..|a| + n] == a + b[..n];
      assert (a + b)[|a| + n] == b[n];
      SameDomainItemsAppend(a, b[..n], baseDomain, domainOf);
    }
  }

  /** The same-domain filter keeps exactly the links whose domain is the
      base domain: each item comes from such a link, and each such link
      gives an item. */
  lemma {:induction false} SameDomainItemsExact(links: seq<Link>, baseDomain: string, domainOf: string -> string)
    ensures forall it :: it in SameDomainItems(links, baseDomain, domainOf) ==>
      domainOf(it.url) == baseDomain && exists l :: l in links && l.url == it.url
    ensures forall l :: l in links && domainOf(l.url) == baseDomain ==>
      CrawlItem(l.url) in SameDomainItems(links, baseDomain, domainOf)
    decreases |links|
  {
    if links != [] {
      var n := |links| - 1;
      SameDomainItemsExact(links[..n], baseDomain, domainOf);
      assert forall l :: l in links[..n] ==> l in links;
      assert forall l :: l in links ==> l in links[..n] || l == links[n];
    }
  }

  /** Every item a visit discovers lies in the crawl's base domain. */
  lemma PageVisitSameDomain(url: string, baseDomain: string, env: Env)
    ensures forall it :: it in PageVisit(url, baseDomain, env).newItems ==> env.domainOf(it.url) == baseDomain
  {
    var v := PageVisit(url, baseDomain, env);
    if v.record.Some? {
      SameDomainItemsExact(v.record.value.links, baseDomain, env.domainOf);
    }
  }

  /** A visit without a record discovers nothing. */
  lemma NoRecordNoItems(url: string, baseDomain: string, env: Env)
    ensures PageVisit(url, baseDomain, env).record.None? ==> PageVisit(url, baseDomain, env).newItems == []
  {
  }

  /** A rendered and parsed page gives a record of its URL, the domain of
      that URL, an empty summary, the page's title, description, headings and
      text, every accepted link whatever its domain (each valid, fragment-free
      and http(s)), about one token per four characters and the number of
      whitespace-separated words; it queues the same-domain links, in link
      order. */
  lemma PageVisitRecord(url: string, baseDomain: string, env: Env, html: string, page: PageContent)
    requires FetchPage(url, env) == Some(html) && html != ""
    requires env.extract(html) == Some(page)
    requires !JoinFails(page.anchors, url, env.urljoin)
    ensures PageVisit(url, baseDomain, env).record.Some?
    ensures var v := PageVisit(url, baseDomain, env);
      var r := v.record.value;
      && r.url == url && r.summary == "" && r.domain == env.domainOf(url)
      && r.title == page.title && r.description == page.description
      && r.headings == page.headings && r.rawText == page.text
      && r.links == AcceptedLinks(page.anchors, url, env.urljoin)
      && (forall l :: l in r.links ==> WellFormedLink(l))
      && v.newItems == SameDomainItems(r.links, baseDomain, env.domainOf)
      && 4 * r.tokens <= |page.text| < 4 * r.tokens + 4
      && r.wordCount == RunStarts(page.text, true)
  {
    AcceptedLinksWellFormed(page.anchors, url, env.urljoin);
    WordCounterCountsRuns(page.text);
  }

  /** A skipped resource yields `(None, [])` and its loader is never
      consulted: replacing the loader changes nothing. */
  lemma SkippedNeverLoads(url: string, baseDomain: string, env: Env, otherLoad: string -> Option<string>)
    requires IsSkipped(url, env)
    ensures FetchPage(url, env) == FetchPage(url, env.(load := otherLoad)) == Some("")
    ensures PageVisit(url, baseDomain, env) == Visit(None, [])
  {
  }

  /** A failed navigation, an empty page, a failed extraction or a
      `urljoin` that raises inside `parse_links` yields `(None, [])`. */
  lemma FailedVisitIsEmpty(url: string, baseDomain: string, env: Env)
    requires || FetchPage(url, env) == None
             || FetchPage(url, env) == Some("")
             || (FetchPage(url, env).Some? && env.extract(FetchPage(url, env).value) == None)
             || (FetchPage(url, env).Some? && env.extract(FetchPage(url, env).value).Some?
                 && JoinFails(env.extract(FetchPage(url, env).value).value.anchors, url, env.urljoin))
    ensures PageVisit(url, baseDomain, env) == Visit(None, [])
  {
  }

  lemma {:induction false} LastSegmentAfterDot(a: string, b: string)
    requires '.' !in b
    ensures LastSegment(a + "." + b) == b
    decreases |b|
  {
    if b == [] {
      assert a + "." + b == a + ".";
    } else {
      var n := |b| - 1;
      assert (a + "." + b)[..|a| + 1 + n] == a + "." + b[..n];
      LastSegmentAfterDot(a, b[..n]);
    }
  }

  lemma {:induction false} LowerKeepsDots(s: string)
    requires '.' !in s
    ensures '.' !in Lower(s)
  {
    if s != [] {
      LowerKeepsDots(s[1..]);
    }
  }

  /** A path whose last dot is followed by a listed extension, in any case
      (`report.PDF`), is skipped. */
  lemma ExtensionSkipped(url: string, env: Env, stem: string, ext: string)
    requires env.pathOf(url) == stem + "." + ext
    requires '.' !in ext && Lower(ext) in SkipExts
    ensures IsSkipped(url, env)
  {
    LowerAppend(stem + ".", ext);
    LowerAppend(stem, ".");
    assert Lower(".") == ".";
    LowerKeepsDots(ext);
    LastSegmentAfterDot(Lower(stem), Lower(ext));
  }
}
