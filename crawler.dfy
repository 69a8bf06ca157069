/**
 * The breadth-first crawl loop (`crawl`) and the concatenation of several
 * crawls (`crawl_multiple`).
 *
 * One round of the loop takes up to `max_tabs` items off the front of the
 * queue, marks their URLs visited, visits them (concurrently in the source;
 * `asyncio.gather` keeps the results in batch order), keeps every record and
 * admits each discovered item whose URL was not yet visited. `Step` is that
 * round as a function, `Run` repeats it until the queue is empty, and the
 * method `Crawl` is proved to compute what `Run` describes.
 *
 * A crawl ends only if finitely many URLs can be discovered: `Run` and `Crawl`
 * take a ghost set `universe` of URLs, closed under discovery, that holds
 * the seed.
 */
module Crawler {
  import opened Wrappers
  import opened Utils
  import opened Visitor

  /** A crawl's configuration. `headless` and `requestTimeout` only reach the
      browser, which the model leaves to the `Env`. */
  datatype Seed = Seed(url: string, headless: bool, requestTimeout: int, maxTabs: int)

  /** The variables of the loop, plus the ghost history of dispatched items
      (the items of every batch so far, in order). */
  datatype CrawlState = CrawlState(
    queue: seq<CrawlItem>, visited: set<string>, results: seq<PageRecord>,
    dispatched: seq<CrawlItem>)

  // ---------------------------------------------------------------------
  // Python slicing
  // ---------------------------------------------------------------------

  /** Where `queue[:n]` ends and `queue[n:]` begins for a list of length
      `len`: a negative `n` counts from the end, and both are clamped. */
  function SliceIndex(n: int, len: nat): (c: nat)
    ensures c <= len
  {
    if n >= 0 then (if n <= len then n else len)
    else if len + n >= 0 then len + n
    else 0
  }

  /** With at least one tab, a non-empty queue always gives a non-empty batch
      of at most `maxTabs` items; with none, the first batch of a crawl is
      empty and the queue is left as it was. */
  lemma SliceIndexBounds(n: int, len: nat)
    ensures n >= 1 && len >= 1 ==> 1 <= SliceIndex(n, len) <= n
    ensures n >= 0 ==> SliceIndex(n, len) == if n <= len then n else len
    ensures n <= 0 && len <= 1 ==> SliceIndex(n, len) == 0
  {
  }

  // ---------------------------------------------------------------------
  // One round
  // ---------------------------------------------------------------------

  /** Whether no URL occurs twice. */
  predicate Distinct(s: seq<CrawlItem>) {
    forall i, j :: 0 <= i < j < |s| ==> s[i].url != s[j].url
  }

  /** The results of `asyncio.gather` over the batch: one visit per item,
      in batch order. */
  function VisitAll(batch: seq<CrawlItem>, visit: string -> Visit): (visits: seq<Visit>)
    ensures |visits| == |batch|
  {
    seq(|batch|, i requires 0 <= i < |batch| => visit(batch[i].url))
  }

  /** The visit function of a crawl: `visit_url` with the crawl's base
      domain. */
  function Visiting(baseDomain: string, env: Env): string -> Visit {
    u => PageVisit(u, baseDomain, env)
  }

  /** The records of the visits that produced one, in order. */
  function Records(visits: seq<Visit>): (records: seq<PageRecord>)
    ensures |records| <= |visits|
  {
    if visits == [] then []
    else
      var n := |visits| - 1;
      Records(visits[..n]) + (if visits[n].record.Some? then [visits[n].record.value] else [])
  }

  /** All discovered items of the visits, in order. */
  function AllNew(visits: seq<Visit>): seq<CrawlItem> {
    if visits == [] then []
    else
      var n := |visits| - 1;
      AllNew(visits[..n]) + visits[n].newItems
  }

  /** The items the collecting loop appends to the queue when `items` are
      discovered with `visited` already marked: each discovered item whose URL
      is neither visited nor discovered earlier in `items`. */
  function Added(visited: set<string>, items: seq<CrawlItem>): seq<CrawlItem> {
    if items == [] then []
    else
      var n := |items| - 1;
      var front := Added(visited, items[..n]);
      if items[n].url in visited + UrlSet(items[..n]) then front else front + [items[n]]
  }

  /** One round of the loop. */
  function Step(st: CrawlState, maxTabs: int, visit: string -> Visit): CrawlState {
    var cut := SliceIndex(maxTabs, |st.queue|);
    var batch := st.queue[..cut];
    var marked := st.visited + UrlSet(batch);
    var visits := VisitAll(batch, visit);
    var items := AllNew(visits);
    CrawlState(
      st.queue[cut..] + Added(marked, items), marked + UrlSet(items),
      st.results + Records(visits), st.dispatched + batch)
  }

  /** Every URL a visit of a URL in `universe` discovers is in `universe`. */
  ghost predicate Closed(universe: set<string>, visit: string -> Visit) {
    forall u {:trigger visit(u)} :: u in universe ==> UrlSet(visit(u).newItems) <= universe
  }

  /** The rounds of the loop until the queue is empty. */
  ghost function Run(st: CrawlState, maxTabs: int, visit: string -> Visit, universe: set<string>): (r: CrawlState)
    requires maxTabs >= 1
    requires Closed(universe, visit)
    requires st.visited <= universe && UrlSet(st.queue) <= universe
    ensures r.queue == []
    decreases universe - st.visited, |st.queue|
  {
    if st.queue == [] then st
    else
      StepProgress(st, maxTabs, visit, universe);
      Run(Step(st, maxTabs, visit), maxTabs, visit, universe)
  }

  /** The state before the first round. */
  function Init(seedUrl: string): CrawlState {
    CrawlState([CrawlItem(seedUrl)], {}, [], [])
  }

  /** What the preconditions of a crawl demand: at least one tab, and a
      finite universe of URLs closed under discovery that holds the seed. */
  ghost predicate Crawlable(seed: Seed, env: Env, universe: set<string>) {
    seed.maxTabs >= 1 && seed.url in universe && Closed(universe, Visiting(env.domainOf(seed.url), env))
  }

  /** The final state of the crawl of `seed`. */
  ghost function CrawlSpec(seed: Seed, env: Env, universe: set<string>): CrawlState
    requires Crawlable(seed, env, universe)
  {
    Run(Init(seed.url), seed.maxTabs, Visiting(env.domainOf(seed.url), env), universe)
  }

  // ---------------------------------------------------------------------
  // crawl
  // ---------------------------------------------------------------------

  /** The loop over one visit's discoveries: admit each item whose URL is
      not yet visited, marking it visited. */
  method Admit(items: seq<CrawlItem>, queue0: seq<CrawlItem>, visited0: set<string>)
    returns (queue: seq<CrawlItem>, visited: set<string>)
    ensures queue == queue0 + Added(visited0, items)
    ensures visited == visited0 + UrlSet(items)
  {
    queue, visited := queue0, visited0;
    for j := 0 to |items|
      invariant queue == queue0 + Added(visited0, items[..j])
      invariant visited == visited0 + UrlSet(items[..j])
    {
      var newItem := items[j];
      AddedPrefix(visited0, items, j);
      AppendAssoc(queue0, Added(visited0, items[..j]), [newItem]);
      if newItem.url !in visited {
        visited := visited + {newItem.url};
        queue := queue + [newItem];
      }
    }
    assert items[..|items|] == items;
  }

  /** The loop over `gather`'s results: keep each record and admit each
      visit's discoveries. */
  method Collect(visits: seq<Visit>, queue0: seq<CrawlItem>, visited0: set<string>, results0: seq<PageRecord>)
    returns (queue: seq<CrawlItem>, visited: set<string>, results: seq<PageRecord>)
    ensures queue == queue0 + Added(visited0, AllNew(visits))
    ensures visited == visited0 + UrlSet(AllNew(visits))
    ensures results == results0 + Records(visits)
  {
    queue, visited, results := queue0, visited0, results0;
    for i := 0 to |visits|
      invariant results == results0 + Records(visits[..i])
      invariant queue == queue0 + Added(visited0, AllNew(visits[..i]))
      invariant visited == visited0 + UrlSet(AllNew(visits[..i]))
    {
      var visit := visits[i];
      VisitsPrefix(visited0, visits, i);
      AppendAssoc(queue0, Added(visited0, AllNew(visits[..i])), Added(visited, visit.newItems));
      AppendAssoc(results0, Records(visits[..i]), if visit.record.Some? then [visit.record.value] else []);
      if visit.record.Some? {
        results := results + [visit.record.value];
      }
      queue, visited := Admit(visit.newItems, queue, visited);
    }
    assert visits[..|visits|] == visits;
  }

  /** One round of `crawl`'s loop: slice off the batch, mark it visited,
      visit every item of it, and collect. */
  method Round(queue0: seq<CrawlItem>, visited0: set<string>, results0: seq<PageRecord>,
               maxTabs: int, baseDomain: string, env: Env)
    returns (queue: seq<CrawlItem>, visited: set<string>, results: seq<PageRecord>, ghost dispatched: seq<CrawlItem>)
    ensures var next := Step(CrawlState(queue0, visited0, results0, []), maxTabs, Visiting(baseDomain, env));
      queue == next.queue && visited == next.visited && results == next.results && dispatched == next.dispatched
  {
    var cut := SliceIndex(maxTabs, |queue0|);
    var batch := queue0[..cut];
    dispatched := batch;
    var rest := queue0[cut..];
    visited := visited0;
    for i := 0 to |batch|
      invariant visited == visited0 + UrlSet(batch[..i])
    {
      UrlSetPrefix(batch, i);
      visited := visited + {batch[i].url};
    }
    assert batch[..|batch|] == batch;
    ghost var visit := Visiting(baseDomain, env);
    var visits: seq<Visit> := [];
    for i := 0 to |batch|
      invariant visits == VisitAll(batch[..i], visit)
    {
      var record, newItems := VisitUrl(batch[i], baseDomain, env);
      VisitAllPrefix(batch, i, visit);
      visits := visits + [Visit(record, newItems)];
    }
    queue, visited, results := Collect(visits, rest, visited, results0);
    assert [] + batch == batch;
  }

  /** `crawl`: the records of every page the crawl of `seed` renders. */
  method Crawl(seed: Seed, env: Env, ghost universe: set<string>) returns (results: seq<PageRecord>)
    requires Crawlable(seed, env, universe)
    ensures results == CrawlSpec(seed, env, universe).results
  {
    var baseDomain := env.domainOf(seed.url);
    ghost var visit := Visiting(baseDomain, env);
    var visited: set<string> := {};
    results := [];
    var queue := [CrawlItem(seed.url)];
    ghost var dispatched: seq<CrawlItem> := [];
    assert UrlSet(queue) == {seed.url};
    while queue != []
      invariant visited <= universe && UrlSet(queue) <= universe
      invariant Run(CrawlState(queue, visited, results, dispatched), seed.maxTabs, visit, universe)
             == CrawlSpec(seed, env, universe)
      decreases universe - visited, |queue|
    {
      ghost var st := CrawlState(queue, visited, results, dispatched);
      ghost var batch;
      queue, visited, results, batch := Round(queue, visited, results, seed.maxTabs, baseDomain, env);
      dispatched := dispatched + batch;
      StepIgnoresHistory(st, seed.maxTabs, visit);
      StepProgress(st, seed.maxTabs, visit, universe);
    }
  }

  // ---------------------------------------------------------------------
  // crawl_multiple
  // ---------------------------------------------------------------------

  /** A seed together with the ghost universe its own crawl is bounded by:
      each seed's crawl runs on its own, so each has a universe of its own. */
  datatype Job = Job(seed: Seed, universe: set<string>)

  /** The seeds of `seeds` paired with their universes, in seed order. */
  ghost function Jobs(seeds: seq<Seed>, universes: seq<set<string>>): (jobs: seq<Job>)
    requires |universes| == |seeds|
    ensures |jobs| == |seeds|
    ensures forall i :: 0 <= i < |seeds| ==> jobs[i] == Job(seeds[i], universes[i])
  {
    seq(|seeds|, i requires 0 <= i < |seeds| => Job(seeds[i], universes[i]))
  }

  /** The records `crawl` returns for one seed (none for a seed the model
      cannot crawl). */
  ghost function SeedResults(env: Env): Job -> seq<PageRecord> {
    (j: Job) => if Crawlable(j.seed, env, j.universe) then CrawlSpec(j.seed, env, j.universe).results else []
  }

  /** The records of the crawls of `seeds`, seed by seed, each crawl bounded
      by its own universe. */
  ghost function CrawlAll(seeds: seq<Seed>, env: Env, universes: seq<set<string>>): seq<PageRecord>
    requires |universes| == |seeds|
  {
    FlatMap(Jobs(seeds, universes), SeedResults(env))
  }

  /** `crawl_multiple`: the crawls run concurrently in the source, and
      `asyncio.gather` returns their results in seed order. */
  method CrawlMultiple(seeds: seq<Seed>, env: Env, ghost universes: seq<set<string>>) returns (allResults: seq<PageRecord>)
    requires |universes| == |seeds|
    requires forall i :: 0 <= i < |seeds| ==> Crawlable(seeds[i], env, universes[i])
    ensures allResults == CrawlAll(seeds, env, universes)
  {
    allResults := [];
    for i := 0 to |seeds|
      invariant allResults == CrawlAll(seeds[..i], env, universes[..i])
    {
      JobsSnoc(seeds, universes, i);
      var results := Crawl(seeds[i], env, universes[i]);
      allResults := allResults + results;
    }
    assert seeds[..|seeds|] == seeds;
    assert universes[..|universes|] == universes;
  }

  // ---------------------------------------------------------------------
  // Lemmas: sequences of items and visits
  // ---------------------------------------------------------------------

  lemma UrlSetAppend(a: seq<CrawlItem>, b: seq<CrawlItem>)
    ensures UrlSet(a + b) == UrlSet(a) + UrlSet(b)
  {
    assert forall it :: it in a + b <==> it in a || it in b;
  }

  lemma DistinctAppend(a: seq<CrawlItem>, b: seq<CrawlItem>)
    requires Distinct(a) && Distinct(b) && UrlSet(a) !! UrlSet(b)
    ensures Distinct(a + b)
  {
    forall i, j | 0 <= i < j < |a + b|
      ensures (a + b)[i].url != (a + b)[j].url
    {
      if j < |a| {
        assert (a + b)[i] == a[i] && (a + b)[j] == a[j];
      } else if i >= |a| {
        assert (a + b)[i] == b[i - |a|] && (a + b)[j] == b[j - |a|];
      } else {
        assert (a + b)[i] == a[i] && a[i].url in UrlSet(a);
        assert (a + b)[j] == b[j - |a|] && b[j - |a|].url in UrlSet(b);
      }
    }
  }

  lemma {:induction false} RecordsAppend(a: seq<Visit>, b: seq<Visit>)
    ensures Records(a + b) == Records(a) + Records(b)
    decreases |b|
  {
    if b == [] {
      assert a + b == a;
    } else {
      var n := |b| - 1;
      assert (a + b)[..|a| + n] == a + b[..n];
      assert (a + b)[|a| + n] == b[n];
      RecordsAppend(a, b[..n]);
    }
  }

  lemma VisitAllAppend(a: seq<CrawlItem>, b: seq<CrawlItem>, visit: string -> Visit)
    ensures VisitAll(a + b, visit) == VisitAll(a, visit) + VisitAll(b, visit)
  {
  }

  /** Each visit's discoveries are among all discoveries. */
  lemma {:induction false} AllNewCovers(visits: seq<Visit>, k: nat)
    requires k < |visits|
    ensures UrlSet(visits[k].newItems) <= UrlSet(AllNew(visits))
    decreases |visits|
  {
    var n := |visits| - 1;
    UrlSetAppend(AllNew(visits[..n]), visits[n].newItems);
    if k < n {
      AllNewCovers(visits[..n], k);
    }
  }

  /** Each discovery comes from one of the visits. */
  lemma {:induction false} AllNewSource(visits: seq<Visit>, it: CrawlItem)
    requires it in AllNew(visits)
    ensures exists k :: 0 <= k < |visits| && it in visits[k].newItems
    decreases |visits|
  {
    var n := |visits| - 1;
    if it in AllNew(visits[..n]) {
      AllNewSource(visits[..n], it);
      var k :| 0 <= k < n && it in visits[..n][k].newItems;
      assert it in visits[k].newItems;
    }
  }

  /** Every item the visit function discovers lies in `baseDomain`. */
  ghost predicate SameDomainVisits(visit: string -> Visit, baseDomain: string, domainOf: string -> string) {
    forall u, it :: it in visit(u).newItems ==> domainOf(it.url) == baseDomain
  }

  lemma VisitingSameDomain(baseDomain: string, env: Env)
    ensures SameDomainVisits(Visiting(baseDomain, env), baseDomain, env.domainOf)
  {
    forall u, it | it in Visiting(baseDomain, env)(u).newItems
      ensures env.domainOf(it.url) == baseDomain
    {
      PageVisitSameDomain(u, baseDomain, env);
    }
  }

  lemma UrlSetPrefix(items: seq<CrawlItem>, i: nat)
    requires i < |items|
    ensures UrlSet(items[..i + 1]) == UrlSet(items[..i]) + {items[i].url}
  {
    assert items[..i + 1] == items[..i] + [items[i]];
    UrlSetAppend(items[..i], [items[i]]);
  }

  lemma VisitAllPrefix(batch: seq<CrawlItem>, i: nat, visit: string -> Visit)
    requires i < |batch|
    ensures VisitAll(batch[..i + 1], visit) == VisitAll(batch[..i], visit) + [visit(batch[i].url)]
  {
  }

  lemma AllNewSnoc(visits: seq<Visit>, v: Visit)
    ensures AllNew(visits + [v]) == AllNew(visits) + v.newItems
  {
    assert (visits + [v])[..|visits|] == visits;
  }

  lemma RecordsSnoc(visits: seq<Visit>, v: Visit)
    ensures Records(visits + [v]) == Records(visits) + (if v.record.Some? then [v.record.value] else [])
  {
    assert (visits + [v])[..|visits|] == visits;
  }

  /** How the admitted items and the visited set grow by one discovery. */
  lemma AddedPrefix(visited: set<string>, items: seq<CrawlItem>, j: nat)
    requires j < |items|
    ensures Added(visited, items[..j + 1])
         == Added(visited, items[..j]) + (if items[j].url in visited + UrlSet(items[..j]) then [] else [items[j]])
    ensures UrlSet(items[..j + 1]) == UrlSet(items[..j]) + {items[j].url}
  {
    assert items[..j + 1] == items[..j] + [items[j]];
    AddedSnoc(visited, items[..j], items[j]);
    UrlSetAppend(items[..j], [items[j]]);
  }

  /** How the records, the discoveries and the admitted items grow by one
      visit. */
  lemma VisitsPrefix(visited: set<string>, visits: seq<Visit>, i: nat)
    requires i < |visits|
    ensures Records(visits[..i + 1])
         == Records(visits[..i]) + (if visits[i].record.Some? then [visits[i].record.value] else [])
    ensures AllNew(visits[..i + 1]) == AllNew(visits[..i]) + visits[i].newItems
    ensures Added(visited, AllNew(visits[..i + 1]))
         == Added(visited, AllNew(visits[..i])) + Added(visited + UrlSet(AllNew(visits[..i])), visits[i].newItems)
    ensures UrlSet(AllNew(visits[..i + 1])) == UrlSet(AllNew(visits[..i])) + UrlSet(visits[i].newItems)
  {
    assert visits[..i + 1] == visits[..i] + [visits[i]];
    AllNewSnoc(visits[..i], visits[i]);
    RecordsSnoc(visits[..i], visits[i]);
    AddedAppend(visited, AllNew(visits[..i]), visits[i].newItems);
    UrlSetAppend(AllNew(visits[..i]), visits[i].newItems);
  }

  lemma AddedSnoc(visited: set<string>, items: seq<CrawlItem>, x: CrawlItem)
    ensures Added(visited, items + [x])
         == Added(visited, items) + (if x.url in visited + UrlSet(items) then [] else [x])
  {
    assert (items + [x])[..|items|] == items;
  }

  /** Admitting two runs of discoveries one after the other admits what
      admitting them together does. */
  lemma {:induction false} AddedAppend(visited: set<string>, a: seq<CrawlItem>, b: seq<CrawlItem>)
    ensures Added(visited, a + b) == Added(visited, a) + Added(visited + UrlSet(a), b)
    decreases |b|
  {
    if b == [] {
      assert a + b == a;
    } else {
      var n := |b| - 1;
      assert a + b == (a + b[..n]) + [b[n]];
      assert b == b[..n] + [b[n]];
      AddedSnoc(visited, a + b[..n], b[n]);
      AddedSnoc(visited + UrlSet(a), b[..n], b[n]);
      UrlSetAppend(a, b[..n]);
      AddedAppend(visited, a, b[..n]);
    }
  }

  /** The collecting loop admits exactly the discovered items whose URL was
      not visited, each URL once. */
  lemma {:induction false} AddedExact(visited: set<string>, items: seq<CrawlItem>)
    ensures forall it :: it in Added(visited, items) ==> it in items && it.url !in visited
    ensures forall it :: it in items && it.url !in visited ==> it in Added(visited, items)
    ensures Distinct(Added(visited, items))
    decreases |items|
  {
    if items != [] {
      var n := |items| - 1;
      var front := Added(visited, items[..n]);
      AddedExact(visited, items[..n]);
      assert items == items[..n] + [items[n]];
      AddedSnoc(visited, items[..n], items[n]);
      forall it | it in items && it.url !in visited
        ensures it in Added(visited, items)
      {
        if it != items[n] {
          assert it in items[..n];
        } else if items[n].url in UrlSet(items[..n]) {
          var y :| y in items[..n] && y.url == items[n].url;
          assert y == items[n];
        }
      }
      if items[n].url !in visited + UrlSet(items[..n]) {
        forall it | it in front
          ensures it.url != items[n].url
        {
          assert it.url in UrlSet(items[..n]);
        }
      }
    }
  }

  // ---------------------------------------------------------------------
  // Lemmas: one round
  // ---------------------------------------------------------------------

  /** The history of dispatched items does not influence a round. */
  lemma StepIgnoresHistory(st: CrawlState, maxTabs: int, visit: string -> Visit)
    ensures var first := Step(st.(dispatched := []), maxTabs, visit);
      Step(st, maxTabs, visit) == first.(dispatched := st.dispatched + first.dispatched)
  {
  }

  /** With no tab, the first round takes nothing off the queue and changes
      nothing, so `while queue` never ends. */
  lemma ZeroTabsStall(seedUrl: string, maxTabs: int, visit: string -> Visit)
    requires maxTabs <= 0
    ensures Step(Init(seedUrl), maxTabs, visit) == Init(seedUrl)
  {
    SliceIndexBounds(maxTabs, 1);
    assert UrlSet([]) == {};
    assert VisitAll([], visit) == [];
  }

  /** A round never forgets a visited URL: the set only grows. */
  lemma VisitedGrows(st: CrawlState, maxTabs: int, visit: string -> Visit)
    ensures st.visited <= Step(st, maxTabs, visit).visited
    ensures UrlSet(st.queue[..SliceIndex(maxTabs, |st.queue|)]) <= Step(st, maxTabs, visit).visited
  {
  }

  /** A round dispatches the first `maxTabs` items of the queue (all of them
      if fewer), keeps the rest at the front of the queue, and only appends:
      dispatched items followed by the queue grow at the end. */
  lemma StepIsFifo(st: CrawlState, maxTabs: int, visit: string -> Visit)
    requires maxTabs >= 1
    ensures var next := Step(st, maxTabs, visit);
      var cut := if maxTabs <= |st.queue| then maxTabs else |st.queue|;
      && next.dispatched == st.dispatched + st.queue[..cut]
      && |st.queue| - cut <= |next.queue| && next.queue[..|st.queue| - cut] == st.queue[cut..]
      && |st.dispatched + st.queue| <= |next.dispatched + next.queue|
      && (next.dispatched + next.queue)[..|st.dispatched + st.queue|] == st.dispatched + st.queue
  {
    SliceIndexBounds(maxTabs, |st.queue|);
    var cut := SliceIndex(maxTabs, |st.queue|);
    assert st.queue == st.queue[..cut] + st.queue[cut..];
  }

  /** A round with at least one tab on a non-empty queue either visits a URL
      of the universe for the first time or shortens the queue, and stays in
      the universe. */
  lemma StepProgress(st: CrawlState, maxTabs: int, visit: string -> Visit, universe: set<string>)
    requires maxTabs >= 1 && st.queue != []
    requires Closed(universe, visit)
    requires st.visited <= universe && UrlSet(st.queue) <= universe
    ensures var next := Step(st, maxTabs, visit);
      && next.visited <= universe && UrlSet(next.queue) <= universe
      && (universe - next.visited < universe - st.visited
          || (universe - next.visited == universe - st.visited && |next.queue| < |st.queue|))
  {
    var cut := SliceIndex(maxTabs, |st.queue|);
    SliceIndexBounds(maxTabs, |st.queue|);
    var batch := st.queue[..cut];
    var rest := st.queue[cut..];
    assert st.queue == batch + rest;
    UrlSetAppend(batch, rest);
    var marked := st.visited + UrlSet(batch);
    var visits := VisitAll(batch, visit);
    var items := AllNew(visits);
    var added := Added(marked, items);
    AddedExact(marked, items);
    forall u | u in UrlSet(items)
      ensures u in universe
    {
      var it :| it in items && it.url == u;
      AllNewSource(visits, it);
      var k :| 0 <= k < |visits| && it in visits[k].newItems;
      assert batch[k] in batch;
      assert it.url in UrlSet(visit(batch[k].url).newItems);
    }
    UrlSetAppend(rest, added);
    var next := Step(st, maxTabs, visit);
    assert next.queue == rest + added;
    if added != [] {
      assert added[0] in added;
      assert added[0].url in next.visited && added[0].url !in st.visited;
    }
  }

  // ---------------------------------------------------------------------
  // Lemmas: the invariant of the loop and the guarantees of a crawl
  // ---------------------------------------------------------------------

  /** The invariant of `crawl`'s loop. With `dq` the dispatched items followed
      by the queue: the seed comes first in `dq`; no URL occurs twice in it;
      the visited set lies between the dispatched URLs and the URLs of `dq`;
      every queued item except the head is already visited, and once
      anything has been dispatched every queued item is; every item of `dq`
      is in the seed's domain; everything a dispatched page discovers is
      visited; and the results are the records of the dispatched pages, in
      dispatch order. */
  ghost predicate Good(st: CrawlState, seedUrl: string, visit: string -> Visit, domainOf: string -> string) {
    QueueGood(st, seedUrl, domainOf) && HistoryGood(st, visit)
  }

  /** The clauses of `Good` about the dispatched items and the queue. */
  ghost predicate QueueGood(st: CrawlState, seedUrl: string, domainOf: string -> string) {
    var dq := st.dispatched + st.queue;
    && |dq| > 0 && dq[0] == CrawlItem(seedUrl)
    && Distinct(dq)
    && UrlSet(st.dispatched) <= st.visited <= UrlSet(dq)
    && (forall k :: 0 < k < |st.queue| ==> st.queue[k].url in st.visited)
    && (st.dispatched != [] ==> UrlSet(st.queue) <= st.visited)
    && (forall it :: it in dq ==> domainOf(it.url) == domainOf(seedUrl))
  }

  /** The clauses of `Good` about what the dispatched pages gave. */
  ghost predicate HistoryGood(st: CrawlState, visit: string -> Visit) {
    && (forall it :: it in st.dispatched ==> UrlSet(visit(it.url).newItems) <= st.visited)
    && st.results == Records(VisitAll(st.dispatched, visit))
  }

  lemma InitGood(seedUrl: string, visit: string -> Visit, domainOf: string -> string)
    ensures Good(Init(seedUrl), seedUrl, visit, domainOf)
  {
    assert Init(seedUrl).dispatched + Init(seedUrl).queue == [CrawlItem(seedUrl)];
    assert VisitAll([], visit) == [];
  }

  /** Every round keeps the invariant. */
  lemma StepKeepsGood(st: CrawlState, maxTabs: int, seedUrl: string, visit: string -> Visit, domainOf: string -> string)
    requires maxTabs >= 1
    requires SameDomainVisits(visit, domainOf(seedUrl), domainOf)
    requires Good(st, seedUrl, visit, domainOf)
    ensures Good(Step(st, maxTabs, visit), seedUrl, visit, domainOf)
  {
    StepKeepsQueueGood(st, maxTabs, seedUrl, visit, domainOf);
    StepKeepsHistoryGood(st, maxTabs, visit);
  }

  lemma StepKeepsQueueGood(st: CrawlState, maxTabs: int, seedUrl: string, visit: string -> Visit, domainOf: string -> string)
    requires maxTabs >= 1
    requires SameDomainVisits(visit, domainOf(seedUrl), domainOf)
    requires QueueGood(st, seedUrl, domainOf)
    ensures QueueGood(Step(st, maxTabs, visit), seedUrl, domainOf)
  {
    var cut := SliceIndex(maxTabs, |st.queue|);
    SliceIndexBounds(maxTabs, |st.queue|);
    var batch := st.queue[..cut];
    var visits := VisitAll(batch, visit);
    AllNewDomain(visits, batch, visit, domainOf(seedUrl), domainOf);
    AdmitKeepsQueueGood(st, cut, AllNew(visits), st.results + Records(visits), seedUrl, domainOf);
  }

  /** After any round of a crawl, every queued URL is already visited: only
      the seed, before the first round, is queued unvisited. */
  lemma QueuedVisited(st: CrawlState, maxTabs: int, seedUrl: string, visit: string -> Visit, domainOf: string -> string)
    requires maxTabs >= 1
    requires SameDomainVisits(visit, domainOf(seedUrl), domainOf)
    requires QueueGood(st, seedUrl, domainOf)
    ensures UrlSet(Step(st, maxTabs, visit).queue) <= Step(st, maxTabs, visit).visited
  {
    StepKeepsQueueGood(st, maxTabs, seedUrl, visit, domainOf);
    SliceIndexBounds(maxTabs, |st.queue|);
    assert Step(st, maxTabs, visit).dispatched != [] by {
      assert st.dispatched != [] || st.queue != [];
    }
  }

  /** Dispatching the first `cut` queued items and admitting the new ones
      among `items` keeps the queue clauses, when `items` stay in the seed's
      domain. */
  lemma AdmitKeepsQueueGood(st: CrawlState, cut: nat, items: seq<CrawlItem>, results: seq<PageRecord>,
                            seedUrl: string, domainOf: string -> string)
    requires QueueGood(st, seedUrl, domainOf)
    requires 1 <= cut <= |st.queue| || (cut == 0 && st.queue == [])
    requires forall it :: it in items ==> domainOf(it.url) == domainOf(seedUrl)
    ensures var batch := st.queue[..cut];
      var marked := st.visited + UrlSet(batch);
      QueueGood(CrawlState(st.queue[cut..] + Added(marked, items), marked + UrlSet(items), results,
                           st.dispatched + batch), seedUrl, domainOf)
  {
    var batch := st.queue[..cut];
    var rest := st.queue[cut..];
    var marked := st.visited + UrlSet(batch);
    var added := Added(marked, items);
    var dq := st.dispatched + st.queue;
    var next := CrawlState(rest + added, marked + UrlSet(items), results, st.dispatched + batch);
    assert next.dispatched + next.queue == dq + added by {
      assert st.queue == batch + rest;
      StepExtends(st.dispatched, batch, rest, added);
    }
    AdmitKeepsVisited(st, cut, items);
    AdmitKeepsOrder(dq, marked, items, seedUrl);
    AdmitKeepsDomain(dq, marked, items, seedUrl, domainOf);
  }

  /** Admitting keeps the seed first and no URL twice. */
  lemma AdmitKeepsOrder(dq: seq<CrawlItem>, marked: set<string>, items: seq<CrawlItem>, seedUrl: string)
    requires |dq| > 0 && dq[0] == CrawlItem(seedUrl)
    requires Distinct(dq) && UrlSet(dq) <= marked
    ensures var next := dq + Added(marked, items);
      |next| > 0 && next[0] == CrawlItem(seedUrl) && Distinct(next)
  {
    AddedUrls(marked, items);
    DistinctAppend(dq, Added(marked, items));
  }

  /** Admitting keeps every item of the seed's domain. */
  lemma AdmitKeepsDomain(dq: seq<CrawlItem>, marked: set<string>, items: seq<CrawlItem>,
                         seedUrl: string, domainOf: string -> string)
    requires forall it :: it in dq ==> domainOf(it.url) == domainOf(seedUrl)
    requires forall it :: it in items ==> domainOf(it.url) == domainOf(seedUrl)
    ensures forall it :: it in dq + Added(marked, items) ==> domainOf(it.url) == domainOf(seedUrl)
  {
    AddedExact(marked, items);
  }

  /** Dispatching the batch and admitting the new items keeps the visited
      set between the dispatched URLs and those of the dispatched items
      followed by the queue, and leaves every queued item visited. */
  lemma AdmitKeepsVisited(st: CrawlState, cut: nat, items: seq<CrawlItem>)
    requires UrlSet(st.dispatched) <= st.visited <= UrlSet(st.dispatched + st.queue)
    requires forall k :: 0 < k < |st.queue| ==> st.queue[k].url in st.visited
    requires 1 <= cut <= |st.queue| || (cut == 0 && st.queue == [])
    ensures var batch := st.queue[..cut];
      var marked := st.visited + UrlSet(batch);
      var added := Added(marked, items);
      var visited := marked + UrlSet(items);
      && UrlSet(st.dispatched + batch) <= visited
      && visited <= UrlSet(st.dispatched + st.queue + added)
      && (forall k :: 0 <= k < |st.queue[cut..] + added| ==> (st.queue[cut..] + added)[k].url in visited)
      && UrlSet(st.queue[cut..] + added) <= visited
  {
    var batch := st.queue[..cut];
    var rest := st.queue[cut..];
    var marked := st.visited + UrlSet(batch);
    var added := Added(marked, items);
    assert st.queue == batch + rest;
    UrlSetAppend(batch, rest);
    UrlSetAppend(st.dispatched, st.queue);
    UrlSetAppend(st.dispatched, batch);
    UrlSetAppend(st.dispatched + st.queue, added);
    UrlSetAppend(rest, added);
    RestVisited(st.queue, cut, st.visited);
    AddedUrls(marked, items);
    forall k | 0 <= k < |rest + added|
      ensures (rest + added)[k].url in marked + UrlSet(items)
    {
      assert (rest + added)[k] in rest + added;
    }
    AllVisited(rest + added, marked + UrlSet(items));
  }

  /** Items whose URLs are each visited have all their URLs visited. */
  lemma AllVisited(q: seq<CrawlItem>, visited: set<string>)
    requires forall k :: 0 <= k < |q| ==> q[k].url in visited
    ensures UrlSet(q) <= visited
  {
    forall u | u in UrlSet(q)
      ensures u in visited
    {
      var it :| it in q && it.url == u;
      var k :| 0 <= k < |q| && q[k] == it;
    }
  }

  /** The URLs of the admitted items: new ones from `items`, no two alike,
      and together with `visited` they cover every URL of `items`. */
  lemma AddedUrls(visited: set<string>, items: seq<CrawlItem>)
    ensures var added := Added(visited, items);
      && UrlSet(added) <= UrlSet(items) && UrlSet(added) !! visited
      && UrlSet(items) <= visited + UrlSet(added)
      && Distinct(added)
  {
    AddedExact(visited, items);
  }

  lemma StepKeepsHistoryGood(st: CrawlState, maxTabs: int, visit: string -> Visit)
    requires HistoryGood(st, visit)
    ensures HistoryGood(Step(st, maxTabs, visit), visit)
  {
    var cut := SliceIndex(maxTabs, |st.queue|);
    var batch := st.queue[..cut];
    var marked := st.visited + UrlSet(batch);
    var visits := VisitAll(batch, visit);
    BatchDiscoveriesVisited(batch, visit, marked);
    RecordsAppend(VisitAll(st.dispatched, visit), visits);
    VisitAllAppend(st.dispatched, batch, visit);
  }

  lemma StepExtends(dispatched: seq<CrawlItem>, batch: seq<CrawlItem>, rest: seq<CrawlItem>, added: seq<CrawlItem>)
    ensures (dispatched + batch) + (rest + added) == (dispatched + (batch + rest)) + added
  {
    AppendAssoc(dispatched, batch, rest + added);
    AppendAssoc(batch, rest, added);
    AppendAssoc(dispatched, batch + rest, added);
  }

  /** What stays in the queue after the first round is visited. */
  lemma RestVisited(queue: seq<CrawlItem>, cut: nat, visited: set<string>)
    requires 1 <= cut <= |queue| || (cut == 0 && queue == [])
    requires forall k :: 0 < k < |queue| ==> queue[k].url in visited
    ensures UrlSet(queue[cut..]) <= visited
  {
    forall it | it in queue[cut..]
      ensures it.url in visited
    {
      var k :| cut <= k < |queue| && queue[k] == it;
    }
  }

  /** Once a batch's discoveries are admitted, everything a page of the
      batch discovers is visited. */
  lemma BatchDiscoveriesVisited(batch: seq<CrawlItem>, visit: string -> Visit, marked: set<string>)
    ensures forall it :: it in batch ==> UrlSet(visit(it.url).newItems) <= marked + UrlSet(AllNew(VisitAll(batch, visit)))
  {
    forall it | it in batch
      ensures UrlSet(visit(it.url).newItems) <= marked + UrlSet(AllNew(VisitAll(batch, visit)))
    {
      var k :| 0 <= k < |batch| && batch[k] == it;
      AllNewCovers(VisitAll(batch, visit), k);
    }
  }

  lemma {:induction false} AllNewDomain(visits: seq<Visit>, batch: seq<CrawlItem>, visit: string -> Visit,
                                        baseDomain: string, domainOf: string -> string)
    requires visits == VisitAll(batch, visit)
    requires SameDomainVisits(visit, baseDomain, domainOf)
    ensures forall it :: it in AllNew(visits) ==> domainOf(it.url) == baseDomain
  {
    forall it | it in AllNew(visits)
      ensures domainOf(it.url) == baseDomain
    {
      AllNewSource(visits, it);
      var k :| 0 <= k < |visits| && it in visits[k].newItems;
      assert it in visit(batch[k].url).newItems;
    }
  }

  /** Every round of a run keeps the invariant. */
  lemma RunKeepsGood(st: CrawlState, maxTabs: int, seedUrl: string, visit: string -> Visit,
                     domainOf: string -> string, universe: set<string>)
    requires maxTabs >= 1
    requires Closed(universe, visit)
    requires st.visited <= universe && UrlSet(st.queue) <= universe
    requires SameDomainVisits(visit, domainOf(seedUrl), domainOf)
    requires Good(st, seedUrl, visit, domainOf)
    ensures Good(Run(st, maxTabs, visit, universe), seedUrl, visit, domainOf)
    decreases universe - st.visited, |st.queue|
  {
    if st.queue != [] {
      StepProgress(st, maxTabs, visit, universe);
      StepKeepsGood(st, maxTabs, seedUrl, visit, domainOf);
      RunKeepsGood(Step(st, maxTabs, visit), maxTabs, seedUrl, visit, domainOf, universe);
    }
  }

  /** What a finished crawl guarantees. The seed is dispatched first; no URL
      is dispatched twice; every dispatched URL is in the seed's domain; the
      visited set is exactly the dispatched URLs; every URL a dispatched page
      discovers was dispatched; and the results are the records of the
      dispatched pages in dispatch order, at most one per page. */
  lemma CrawlGuarantees(seed: Seed, env: Env, universe: set<string>)
    requires Crawlable(seed, env, universe)
    ensures var final := CrawlSpec(seed, env, universe);
      var baseDomain := env.domainOf(seed.url);
      var d := final.dispatched;
      && final.queue == []
      && |d| > 0 && d[0] == CrawlItem(seed.url)
      && Distinct(d)
      && (forall it :: it in d ==> env.domainOf(it.url) == baseDomain)
      && final.visited == UrlSet(d)
      && (forall it :: it in d ==> UrlSet(PageVisit(it.url, baseDomain, env).newItems) <= UrlSet(d))
      && final.results == Records(VisitAll(d, Visiting(baseDomain, env)))
      && |final.results| <= |d|
  {
    var baseDomain := env.domainOf(seed.url);
    var visit := Visiting(baseDomain, env);
    VisitingSameDomain(baseDomain, env);
    InitGood(seed.url, visit, env.domainOf);
    assert UrlSet([CrawlItem(seed.url)]) == {seed.url};
    RunKeepsGood(Init(seed.url), seed.maxTabs, seed.url, visit, env.domainOf, universe);
    var final := CrawlSpec(seed, env, universe);
    assert final.dispatched + final.queue == final.dispatched;
    forall it | it in final.dispatched
      ensures UrlSet(PageVisit(it.url, baseDomain, env).newItems) <= UrlSet(final.dispatched)
    {
      assert visit(it.url) == PageVisit(it.url, baseDomain, env);
    }
  }

  // ---------------------------------------------------------------------
  // Lemmas: crawl_multiple
  // ---------------------------------------------------------------------

  /** The jobs of the first `i + 1` seeds are those of the first `i` and
      then the job of seed `i`. */
  lemma JobsSnoc(seeds: seq<Seed>, universes: seq<set<string>>, i: nat)
    requires |universes| == |seeds| && i < |seeds|
    ensures Jobs(seeds[..i + 1], universes[..i + 1]) == Jobs(seeds[..i], universes[..i]) + [Job(seeds[i], universes[i])]
  {
  }

  /** Cutting the seeds cuts their jobs at the same place. */
  lemma JobsSlices(seeds: seq<Seed>, universes: seq<set<string>>, i: nat)
    requires |universes| == |seeds| && i < |seeds|
    ensures Jobs(seeds, universes)[..i] == Jobs(seeds[..i], universes[..i])
    ensures Jobs(seeds, universes)[i + 1..] == Jobs(seeds[i + 1..], universes[i + 1..])
  {
  }

  /** The records of the crawl of `seeds[i]` form one contiguous block of
      the combined records, after those of the seeds before it and before
      those of the seeds after it. */
  lemma CrawlAllBlock(seeds: seq<Seed>, i: nat, env: Env, universes: seq<set<string>>)
    requires |universes| == |seeds| && i < |seeds|
    requires Crawlable(seeds[i], env, universes[i])
    ensures CrawlAll(seeds, env, universes)
         == CrawlAll(seeds[..i], env, universes[..i]) + CrawlSpec(seeds[i], env, universes[i]).results
            + CrawlAll(seeds[i + 1..], env, universes[i + 1..])
  {
    var jobs := Jobs(seeds, universes);
    FlatMapBlock(jobs, i, SeedResults(env));
    JobsSlices(seeds, universes, i);
    assert SeedResults(env)(jobs[i]) == CrawlSpec(seeds[i], env, universes[i]).results;
  }
}
