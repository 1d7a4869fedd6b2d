/** The crawl loop of `process_pages` (bgp.py:29-115): a list of pending
    URLs processed from the front, two result lists that only grow, a page
    counter, and the way an exception ends the crawl. */
module Crawl {
  import opened Text
  import opened Pages
  import opened Accumulate

  /** Everything the loop changes: the pending URLs (the caller's `pages`),
      the two result lists and the count of parsed pages. */
  datatype State = State(pages: seq<string>, netBlocks: seq<string>, domains: seq<string>, count: nat)

  /** A state after one or more iterations, and where the crawl stands. */
  datatype Outcome = Outcome(state: State, status: Status)

  /** The state after running an extractor; `ok` is false when it raised. */
  datatype Scraped = Scraped(state: State, ok: bool)

  /** The domains after the DNS rows of one page; `ok` is false when a row raised. */
  datatype RowsOutcome = RowsOutcome(domains: seq<string>, ok: bool)

  function Start(seed: seq<string>): State
  {
    State(seed, [], [], 0)
  }

  /** The name a row contributes to `domains`: a resolved, non-empty one. */
  function RowContribution(row: Row): seq<string>
  {
    match ResolveRow(row)
    case Named(Some(n)) => if n != "" then [n] else []
    case _ => []
  }

  /** The loop over the DNS rows (bgp.py:85-98); the first malformed row
      stops it, with the names of earlier rows already added. */
  function AddRowNames(domains: seq<string>, rows: seq<Row>): RowsOutcome
    decreases |rows|
  {
    if rows == [] then RowsOutcome(domains, true)
    else if ResolveRow(rows[0]).Malformed? then RowsOutcome(domains, false)
    else AddRowNames(IncludeAll(domains, RowContribution(rows[0])), rows[1..])
  }

  /** Number of rows before the first malformed one. */
  function ReadableRows(rows: seq<Row>): (n: nat)
    ensures n <= |rows|
    ensures forall k :: 0 <= k < n ==> !ResolveRow(rows[k]).Malformed?
    ensures n < |rows| ==> ResolveRow(rows[n]).Malformed?
    decreases |rows|
  {
    if rows == [] || ResolveRow(rows[0]).Malformed? then 0
    else 1 + ReadableRows(rows[1..])
  }

  /** The resolved non-empty names of the rows, in order. */
  function RowNames(rows: seq<Row>): (names: seq<string>)
    ensures forall k :: 0 <= k < |names| ==> names[k] != ""
    decreases |rows|
  {
    if rows == [] then [] else RowContribution(rows[0]) + RowNames(rows[1..])
  }

  /** The names of the readable rows: those of the first row, then those of
      the readable rows after it. */
  lemma ReadableNamesUnfold(rows: seq<Row>)
    requires rows != [] && !ResolveRow(rows[0]).Malformed?
    ensures ReadableRows(rows) == ReadableRows(rows[1..]) + 1
    ensures RowNames(rows[..ReadableRows(rows)]) ==
      RowContribution(rows[0]) + RowNames(rows[1..][..ReadableRows(rows[1..])])
  {
    var n := ReadableRows(rows[1..]);
    var front := rows[..n + 1];
    assert front[0] == rows[0];
    assert front[1..] == rows[1..][..n];
    assert RowNames(front) == RowContribution(front[0]) + RowNames(front[1..]);
  }

  /** The row loop adds the non-empty names of every row before the first
      malformed one, in order and without duplicates, and succeeds exactly
      when no row is malformed. */
  lemma {:induction false} AddRowNamesMeaning(domains: seq<string>, rows: seq<Row>)
    ensures AddRowNames(domains, rows) ==
      RowsOutcome(IncludeAll(domains, RowNames(rows[..ReadableRows(rows)])), ReadableRows(rows) == |rows|)
    decreases |rows|
  {
    if rows == [] {
    } else if ResolveRow(rows[0]).Malformed? {
      assert rows[..0] == [];
    } else {
      var c := RowContribution(rows[0]);
      var tail := RowNames(rows[1..][..ReadableRows(rows[1..])]);
      ReadableNamesUnfold(rows);
      AddRowNamesMeaning(IncludeAll(domains, c), rows[1..]);
      IncludeAllConcat(domains, c, tail);
    }
  }

  /** No empty name is ever added: if every domain was non-empty before, it
      still is after the rows of a page. */
  lemma AddRowNamesNonEmpty(domains: seq<string>, rows: seq<Row>)
    requires forall d :: d in domains ==> d != ""
    ensures forall d :: d in AddRowNames(domains, rows).domains ==> d != ""
  {
    AddRowNamesMeaning(domains, rows);
    var names := RowNames(rows[..ReadableRows(rows)]);
    forall d | d in AddRowNames(domains, rows).domains ensures d != "" {
      IncludeAllMembers(domains, names, d);
    }
  }

  /** The AS-page extractor (bgp.py:62-72): the CIDR of every kept link is
      recorded, then every kept link not yet pending is enqueued. */
  function ScrapeAs(s: State, page: Page): State
  {
    var links := NetLinks(page.hrefs);
    s.(netBlocks := IncludeAll(s.netBlocks, Cidrs(links)), pages := IncludeAll(s.pages, links))
  }

  /** The net-page extractor (bgp.py:77-98): the page's own CIDR is
      recorded first; unless a no-DNS sentinel is present, the DNS rows are
      read, and a missing table or a malformed row raises. */
  function ScrapeNet(s: State, url: string, page: Page): Scraped
  {
    var s1 := s.(netBlocks := Include(s.netBlocks, Cidr(url)));
    if NoDnsListing(page.source) then Scraped(s1, true)
    else match page.dnsTable
      case None => Scraped(s1, false)
      case Some(rows) =>
        var o := AddRowNames(s1.domains, rows);
        Scraped(s1.(domains := o.domains), o.ok)
  }

  /** One pass of the loop body on the URL at the front of `pages`, whose
      page is `page` (bgp.py:56-114). */
  function Iterate(s: State, page: Page): Outcome
    requires s.pages != []
  {
    var url := s.pages[0];
    var sc := match Classify(url)
      case AsPage => Scraped(ScrapeAs(s, page), true)
      case NetPage => ScrapeNet(s, url, page)
      case UnknownPage => Scraped(s, true);
    if sc.ok then
      assert IsPrefix(s.pages, sc.state.pages);
      Outcome(sc.state.(pages := sc.state.pages[1..], count := sc.state.count + 1), Running)
    else
      Outcome(sc.state, ErrorPolicy(page.source))
  }

  /** The whole loop, for at most `fuel` iterations. The browser is the
      oracle `fetch`: `fetch(n, url)` is what it shows for `url` as the
      `n`-th page fetched, so a page may differ between visits. */
  function Run(s: State, fetch: (nat, string) -> Page, fuel: nat): Outcome
    decreases fuel, 0
  {
    if s.pages == [] then Outcome(s, Exhausted)
    else if fuel == 0 then Outcome(s, Running)
    else Continue(Iterate(s, fetch(s.count, s.pages[0])), fetch, fuel - 1)
  }

  /** After an iteration: go on while it succeeded, stop where it failed. */
  function Continue(o: Outcome, fetch: (nat, string) -> Page, fuel: nat): Outcome
    decreases fuel, 1
  {
    if o.status == Running then Run(o.state, fetch, fuel) else o
  }

  // ---------------------------------------------------------------------
  // What one iteration does

  /** A successful iteration removes exactly the front URL and counts one
      page; the URLs behind it keep their order, and only an AS page adds
      more. */
  lemma IterateSuccess(s: State, page: Page)
    requires s.pages != []
    requires Iterate(s, page).status == Running
    ensures var r := Iterate(s, page).state;
      && r.count == s.count + 1
      && IsPrefix(s.pages[1..], r.pages)
      && (Classify(s.pages[0]) != AsPage ==> r.pages == s.pages[1..])
  {
    var url := s.pages[0];
    match Classify(url)
    case AsPage =>
      AsPageSucceeds(s, page);
      var q := IncludeAll(s.pages, NetLinks(page.hrefs));
      assert q[1..][..|s.pages| - 1] == q[..|s.pages|][1..];
    case UnknownPage =>
      UnknownPageSkipped(s, page);
    case NetPage =>
  }

  /** An AS page grows the pending list by exactly the distinct links it
      holds that were not pending yet, less the popped URL. */
  lemma AsPageGrowth(s: State, page: Page)
    requires s.pages != [] && Classify(s.pages[0]) == AsPage
    ensures |Iterate(s, page).state.pages| ==
      |s.pages| - 1 + |Elements(NetLinks(page.hrefs)) - Elements(s.pages)|
  {
    AsPageSucceeds(s, page);
    IncludeAllGrowth(s.pages, NetLinks(page.hrefs));
  }

  /** An iteration counts its page exactly when it succeeds. */
  lemma IterateCounts(s: State, page: Page)
    requires s.pages != []
    ensures var o := Iterate(s, page);
      && (o.status == Running ==> o.state.count == s.count + 1)
      && (o.status != Running ==> o.state.count == s.count && o.state.pages == s.pages)
  {
  }

  /** A failing iteration happens only on a net page. It leaves the URL
      pending and the counter alone, keeps what the page added before the
      exception (its own CIDR, and the names of the DNS rows before the one
      that raised, which always exists when there is a table), and reports a quota stop exactly
      when the page shows the quota sentinel. */
  lemma IterateFailure(s: State, page: Page)
    requires s.pages != []
    requires Iterate(s, page).status != Running
    ensures var r := Iterate(s, page).state;
      && Classify(s.pages[0]) == NetPage
      && r.pages == s.pages && r.count == s.count
      && r.netBlocks == Include(s.netBlocks, Cidr(s.pages[0]))
      && !NoDnsListing(page.source)
      && (page.dnsTable.None? ==> r.domains == s.domains)
      && (page.dnsTable.Some? ==>
            var rows := page.dnsTable.value;
            ReadableRows(rows) < |rows| &&
            r.domains == IncludeAll(s.domains, RowNames(rows[..ReadableRows(rows)])))
      && (Iterate(s, page).status == RateLimited <==> exists i :: OccursAt(page.source, QueryLimit, i))
      && (Iterate(s, page).status == Fatal <==> forall i :: !OccursAt(page.source, QueryLimit, i))
  {
    ErrorPolicyMeaning(page.source);
    if page.dnsTable.Some? {
      AddRowNamesMeaning(s.domains, page.dnsTable.value);
    }
  }

  /** A net page always records its own CIDR, whether the pass succeeds
      or raises. */
  lemma NetPageAlwaysRecordsCidr(s: State, page: Page)
    requires s.pages != [] && Classify(s.pages[0]) == NetPage
    ensures Iterate(s, page).state.netBlocks == Include(s.netBlocks, Cidr(s.pages[0]))
  {
  }

  /** A net page without a no-DNS sentinel whose DNS rows all read
      succeeds: its CIDR is recorded, the non-empty names of all its rows
      are appended if absent, and the URL is popped and counted. */
  lemma NetPageReadsTable(s: State, page: Page)
    requires s.pages != [] && Classify(s.pages[0]) == NetPage
    requires !NoDnsListing(page.source) && page.dnsTable.Some?
    requires ReadableRows(page.dnsTable.value) == |page.dnsTable.value|
    ensures Iterate(s, page) ==
      Outcome(State(s.pages[1..], Include(s.netBlocks, Cidr(s.pages[0])),
                    IncludeAll(s.domains, RowNames(page.dnsTable.value)), s.count + 1),
              Running)
  {
    AddRowNamesMeaning(s.domains, page.dnsTable.value);
    assert page.dnsTable.value[..|page.dnsTable.value|] == page.dnsTable.value;
  }

  /** A failing iteration whose page has no DNS table adds no domain. */
  lemma MissingTableAddsNoDomain(s: State, page: Page)
    requires s.pages != [] && Classify(s.pages[0]) == NetPage
    requires !NoDnsListing(page.source) && page.dnsTable.None?
    ensures Iterate(s, page).status != Running
    ensures Iterate(s, page).state == s.(netBlocks := Include(s.netBlocks, Cidr(s.pages[0])))
  {
  }

  /** A net page with a no-DNS sentinel adds no domain, yet its own CIDR is
      recorded and the iteration succeeds, whatever its DNS table holds. */
  lemma NoDnsShortCircuit(s: State, page: Page)
    requires s.pages != [] && Classify(s.pages[0]) == NetPage
    requires NoDnsListing(page.source)
    ensures Iterate(s, page).status == Running
    ensures Iterate(s, page).state.domains == s.domains
    ensures Cidr(s.pages[0]) in Iterate(s, page).state.netBlocks
  {
  }

  /** An AS page never raises: its links are enqueued and its CIDRs
      recorded, then the URL is popped and counted. */
  lemma AsPageSucceeds(s: State, page: Page)
    requires s.pages != [] && Classify(s.pages[0]) == AsPage
    ensures var a := ScrapeAs(s, page);
      Iterate(s, page) == Outcome(a.(pages := a.pages[1..], count := s.count + 1), Running)
  {
  }

  /** A URL of unknown shape is counted and popped and changes nothing else. */
  lemma UnknownPageSkipped(s: State, page: Page)
    requires s.pages != [] && Classify(s.pages[0]) == UnknownPage
    ensures Iterate(s, page) == Outcome(s.(pages := s.pages[1..], count := s.count + 1), Running)
  {
  }

  /** An iteration keeps the result lists free of duplicates. */
  lemma IterateKeepsDistinct(s: State, page: Page)
    requires s.pages != []
    requires Distinct(s.netBlocks) && Distinct(s.domains)
    ensures Distinct(Iterate(s, page).state.netBlocks)
    ensures Distinct(Iterate(s, page).state.domains)
  {
    var url := s.pages[0];
    match Classify(url)
    case AsPage =>
      IncludeAllKeepsDistinct(s.netBlocks, Cidrs(NetLinks(page.hrefs)));
    case NetPage =>
      IncludeKeepsDistinct(s.netBlocks, Cidr(url));
      if !NoDnsListing(page.source) && page.dnsTable.Some? {
        AddRowNamesMeaning(s.domains, page.dnsTable.value);
        var rows := page.dnsTable.value;
        IncludeAllKeepsDistinct(s.domains, RowNames(rows[..ReadableRows(rows)]));
      }
    case UnknownPage =>
  }

  /** An iteration never makes a URL pending twice. */
  lemma IterateKeepsPagesDistinct(s: State, page: Page)
    requires s.pages != []
    requires Distinct(s.pages)
    ensures Distinct(Iterate(s, page).state.pages)
  {
    if Classify(s.pages[0]) == AsPage {
      IncludeAllKeepsDistinct(s.pages, NetLinks(page.hrefs));
    }
  }

  /** An iteration only appends to the result lists. */
  lemma IterateAppendOnly(s: State, page: Page)
    requires s.pages != []
    ensures IsPrefix(s.netBlocks, Iterate(s, page).state.netBlocks)
    ensures IsPrefix(s.domains, Iterate(s, page).state.domains)
  {
    var url := s.pages[0];
    if Classify(url) == NetPage {
      assert IsPrefix(s.netBlocks, Include(s.netBlocks, Cidr(url))) by {
        if Cidr(url) !in s.netBlocks {
          assert (s.netBlocks + [Cidr(url)])[..|s.netBlocks|] == s.netBlocks;
        }
      }
      if !NoDnsListing(page.source) && page.dnsTable.Some? {
        AddRowNamesMeaning(s.domains, page.dnsTable.value);
      }
    }
  }

  /** An iteration adds no empty domain name. */
  lemma IterateDomainsNonEmpty(s: State, page: Page)
    requires s.pages != []
    requires forall d :: d in s.domains ==> d != ""
    ensures forall d :: d in Iterate(s, page).state.domains ==> d != ""
  {
    if Classify(s.pages[0]) == NetPage && !NoDnsListing(page.source) && page.dnsTable.Some? {
      AddRowNamesNonEmpty(s.domains, page.dnsTable.value);
    }
  }

  // ---------------------------------------------------------------------
  // What the whole loop does

  /** A property of states that every iteration preserves holds of every
      state the crawl goes on from, and of the state it ends in. */
  ghost predicate PreservedByIterate(inv: State -> bool)
  {
    forall t: State, page: Page :: t.pages != [] && inv(t) ==> inv(Iterate(t, page).state)
  }

  lemma {:induction false} ContinueKeeps(inv: State -> bool, o: Outcome, fetch: (nat, string) -> Page, fuel: nat)
    requires PreservedByIterate(inv) && inv(o.state)
    ensures inv(Continue(o, fetch, fuel).state)
    decreases fuel
  {
    var s := o.state;
    if o.status == Running && s.pages != [] && fuel > 0 {
      ContinueKeeps(inv, Iterate(s, fetch(s.count, s.pages[0])), fetch, fuel - 1);
    }
  }

  lemma RunKeeps(inv: State -> bool, s: State, fetch: (nat, string) -> Page, fuel: nat)
    requires PreservedByIterate(inv) && inv(s)
    ensures inv(Run(s, fetch, fuel).state)
  {
    ContinueKeeps(inv, Outcome(s, Running), fetch, fuel);
  }

  /** The result lists of a crawl never hold a duplicate. */
  lemma RunKeepsResultsDistinct(s: State, fetch: (nat, string) -> Page, fuel: nat)
    requires Distinct(s.netBlocks) && Distinct(s.domains)
    ensures Distinct(Run(s, fetch, fuel).state.netBlocks)
    ensures Distinct(Run(s, fetch, fuel).state.domains)
  {
    var inv := (t: State) => Distinct(t.netBlocks) && Distinct(t.domains);
    forall t: State, page: Page | t.pages != [] && inv(t) ensures inv(Iterate(t, page).state) {
      IterateKeepsDistinct(t, page);
    }
    RunKeeps(inv, s, fetch, fuel);
  }

  /** Nor does the list of pending URLs, if the seed had none. */
  lemma RunKeepsPagesDistinct(s: State, fetch: (nat, string) -> Page, fuel: nat)
    requires Distinct(s.pages)
    ensures Distinct(Run(s, fetch, fuel).state.pages)
  {
    var inv := (t: State) => Distinct(t.pages);
    forall t: State, page: Page | t.pages != [] && inv(t) ensures inv(Iterate(t, page).state) {
      IterateKeepsPagesDistinct(t, page);
    }
    RunKeeps(inv, s, fetch, fuel);
  }

  /** Whatever stops the crawl, nothing gathered is lost or reordered:
      every earlier result list is an initial segment of the final one. */
  lemma RunAppendOnly(s: State, fetch: (nat, string) -> Page, fuel: nat)
    ensures IsPrefix(s.netBlocks, Run(s, fetch, fuel).state.netBlocks)
    ensures IsPrefix(s.domains, Run(s, fetch, fuel).state.domains)
  {
    var inv := (t: State) => IsPrefix(s.netBlocks, t.netBlocks) && IsPrefix(s.domains, t.domains);
    forall t: State, page: Page | t.pages != [] && inv(t) ensures inv(Iterate(t, page).state) {
      var r := Iterate(t, page).state;
      IterateAppendOnly(t, page);
      PrefixTransitive(s.netBlocks, t.netBlocks, r.netBlocks);
      PrefixTransitive(s.domains, t.domains, r.domains);
    }
    RunKeeps(inv, s, fetch, fuel);
  }

  /** The crawl adds no empty domain name. */
  lemma RunDomainsNonEmpty(s: State, fetch: (nat, string) -> Page, fuel: nat)
    requires forall d :: d in s.domains ==> d != ""
    ensures forall d :: d in Run(s, fetch, fuel).state.domains ==> d != ""
  {
    var inv := (t: State) => forall d :: d in t.domains ==> d != "";
    forall t: State, page: Page | t.pages != [] && inv(t) ensures inv(Iterate(t, page).state) {
      IterateDomainsNonEmpty(t, page);
    }
    RunKeeps(inv, s, fetch, fuel);
  }

  /** Why a crawl stopped, seen from a state it goes on from: Exhausted
      exactly when nothing is pending; Running only when the fuel ran out,
      after `fuel` more parsed pages; never more pages counted than
      iterations run; and RateLimited or Fatal leave the failing URL at the
      front, which is a net page, and the quota sentinel in its page tells
      them apart. */
  ghost predicate StopsProperly(s: State, fetch: (nat, string) -> Page, fuel: nat, r: Outcome)
  {
    && (r.status == Exhausted <==> r.state.pages == [])
    && (r.status == Running ==> r.state.count == s.count + fuel)
    && s.count <= r.state.count <= s.count + fuel
    && (r.status == RateLimited || r.status == Fatal ==>
          && r.state.pages != []
          && Classify(r.state.pages[0]) == NetPage
          && (r.status == RateLimited <==>
              exists i :: OccursAt(fetch(r.state.count, r.state.pages[0]).source, QueryLimit, i)))
  }

  lemma {:induction false} ContinueStops(o: Outcome, fetch: (nat, string) -> Page, fuel: nat)
    requires o.status == Running
    ensures StopsProperly(o.state, fetch, fuel, Continue(o, fetch, fuel))
    decreases fuel
  {
    var s := o.state;
    if s.pages != [] && fuel > 0 {
      var page := fetch(s.count, s.pages[0]);
      var o' := Iterate(s, page);
      IterateCounts(s, page);
      if o'.status == Running {
        ContinueStops(o', fetch, fuel - 1);
      } else {
        IterateFailure(s, page);
        assert Continue(o', fetch, fuel - 1) == o';
      }
    }
  }

  lemma RunStops(s: State, fetch: (nat, string) -> Page, fuel: nat)
    ensures var o := Run(s, fetch, fuel);
      && (o.status == Exhausted <==> o.state.pages == [])
      && (o.status == Running ==> o.state.count == s.count + fuel)
      && s.count <= o.state.count <= s.count + fuel
      && (o.status == RateLimited || o.status == Fatal ==>
            && o.state.pages != []
            && Classify(o.state.pages[0]) == NetPage
            && (o.status == RateLimited <==>
                exists i :: OccursAt(fetch(o.state.count, o.state.pages[0]).source, QueryLimit, i)))
  {
    ContinueStops(Outcome(s, Running), fetch, fuel);
  }

  /** Only an AS page makes the pending list grow, so a crawl whose pending
      URLs include no AS page stops within as many iterations as there are
      pending URLs. */
  lemma {:induction false} ContinueWithoutAsPagesStops(o: Outcome, fetch: (nat, string) -> Page, fuel: nat)
    requires forall k :: 0 <= k < |o.state.pages| ==> Classify(o.state.pages[k]) != AsPage
    requires fuel >= |o.state.pages|
    ensures Continue(o, fetch, fuel).status != Running
    decreases fuel
  {
    var s := o.state;
    if o.status == Running && s.pages != [] {
      var page := fetch(s.count, s.pages[0]);
      var o' := Iterate(s, page);
      if o'.status == Running {
        IterateSuccess(s, page);
        assert forall k :: 0 <= k < |o'.state.pages| ==> o'.state.pages[k] == s.pages[k + 1];
        ContinueWithoutAsPagesStops(o', fetch, fuel - 1);
      } else {
        assert Continue(o', fetch, fuel - 1) == o';
      }
    }
  }

  lemma RunWithoutAsPagesStops(s: State, fetch: (nat, string) -> Page, fuel: nat)
    requires forall k :: 0 <= k < |s.pages| ==> Classify(s.pages[k]) != AsPage
    requires fuel >= |s.pages|
    ensures Run(s, fetch, fuel).status != Running
  {
    ContinueWithoutAsPagesStops(Outcome(s, Running), fetch, fuel);
  }

  /** Every fetch of `u` shows an AS page whose only kept link is `v`. */
  ghost predicate OnlyLinks(fetch: (nat, string) -> Page, u: string, v: string)
  {
    forall n: nat :: NetLinks(fetch(n, u).hrefs) == [v]
  }

  /** With `u` alone pending and its page linking only `v`, one iteration
      pops `u` and leaves `v` alone pending. */
  lemma FollowOnlyLink(u: string, v: string, s: State, fetch: (nat, string) -> Page)
    requires u != v && Classify(u) == AsPage && OnlyLinks(fetch, u, v)
    requires s.pages == [u]
    ensures var o := Iterate(s, fetch(s.count, u));
      o.status == Running && o.state.pages == [v] && o.state.count == s.count + 1
  {
    var page := fetch(s.count, u);
    assert NetLinks(page.hrefs) == [v];
    AsPageSucceeds(s, page);
    assert [v][1..] == [];
    assert IncludeAll(s.pages, [v]) == IncludeAll([u, v], []);
  }

  /** A popped URL can be enqueued again: two AS pages that link each other
      keep the crawl going for ever, so no bound on the fuel makes every
      crawl stop. */
  lemma {:induction false} MutualLinksNeverStop(u: string, v: string, s: State, fetch: (nat, string) -> Page, fuel: nat)
    requires u != v && Classify(u) == AsPage && Classify(v) == AsPage
    requires OnlyLinks(fetch, u, v) && OnlyLinks(fetch, v, u)
    requires s.pages == [u]
    ensures Run(s, fetch, fuel).status == Running
    decreases fuel
  {
    if fuel > 0 {
      FollowOnlyLink(u, v, s, fetch);
      MutualLinksNeverStop(v, u, Iterate(s, fetch(s.count, u)).state, fetch, fuel - 1);
    }
  }

  // ---------------------------------------------------------------------
  // The executable loop

  /** The row loop of bgp.py:85-98, one statement of the source at a
      time: the PTR link is read first and the A-record link overrides it,
      and a missing cell or an empty anchor raises. */
  method AddNames(domains: seq<string>, rows: seq<Row>) returns (r: seq<string>, ok: bool)
    ensures RowsOutcome(r, ok) == AddRowNames(domains, rows)
  {
    r := domains;
    var i := 0;
    while i < |rows|
      invariant 0 <= i <= |rows|
      invariant AddRowNames(r, rows[i..]) == AddRowNames(domains, rows)
    {
      assert rows[i..][1..] == rows[i + 1..];
      var cells := rows[i].cells;
      if |cells| < 2 {
        return r, false;  // `cells[1]` raises
      }
      var dnsName: Option<string> := None;
      var ptr, aRecord := cells[1], cells[|cells| - 1];
      if ptr.link.Some? {
        if ptr.link.value.contents == [] {
          return r, false;  // `dns_link.contents[0]` raises
        }
        dnsName := Some(ptr.link.value.contents[0]);
      }
      if aRecord.link.Some? {
        if aRecord.link.value.contents == [] {
          return r, false;  // `a_record_link.contents[0]` raises
        }
        dnsName := Some(aRecord.link.value.contents[0]);
      }
      assert ResolveRow(rows[i]) == Named(dnsName);
      if dnsName.Some? && dnsName.value != "" {
        assert IncludeAll(r, [dnsName.value]) == Include(r, dnsName.value);
        if dnsName.value !in r {
          r := r + [dnsName.value];
        }
      }
      i := i + 1;
    }
    ok := true;
  }

  /** The loop body of bgp.py:56-114 for the URL at the front of
      `s.pages`, whose page is `page`. */
  method Visit(s: State, page: Page) returns (o: Outcome)
    requires s.pages != []
    ensures o == Iterate(s, page)
  {
    var url := s.pages[0];
    var pages, netBlocks, domains := s.pages, s.netBlocks, s.domains;
    var failed := false;
    var kind := Classify(url);
    if kind == AsPage {
      var links := NetLinks(page.hrefs);
      netBlocks := AppendNew(netBlocks, Cidrs(links));
      pages := AppendNew(pages, links);
    } else if kind == NetPage {
      netBlocks := Include(netBlocks, Cidr(url));
      if !NoDnsListing(page.source) {
        match page.dnsTable
        case None =>
          failed := true;
        case Some(rows) =>
          var ok;
          domains, ok := AddNames(domains, rows);
          failed := !ok;
      }
    }
    if failed {
      return Outcome(State(pages, netBlocks, domains, s.count), ErrorPolicy(page.source));
    }
    o := Outcome(State(pages[1..], netBlocks, domains, s.count + 1), Running);
  }

  /** `process_pages(pages, driver)`: crawl from `seed`, for at most `fuel`
      iterations, and return the final state (the results, the URLs left
      pending and the page count) and why the crawl stopped. */
  method ProcessPages(seed: seq<string>, fetch: (nat, string) -> Page, fuel: nat)
    returns (final: State, status: Status)
    ensures Outcome(final, status) == Run(Start(seed), fetch, fuel)
    ensures Distinct(final.netBlocks) && Distinct(final.domains)
    ensures Distinct(seed) ==> Distinct(final.pages)
    ensures status == Exhausted <==> final.pages == []
    ensures status == Running ==> final.count == fuel
    ensures status == RateLimited || status == Fatal ==>
      final.pages != [] && Classify(final.pages[0]) == NetPage
  {
    final := Start(seed);
    status := Running;
    var left := fuel;
    while final.pages != [] && left > 0
      invariant status == Running
      invariant Run(final, fetch, left) == Run(Start(seed), fetch, fuel)
      decreases left
    {
      var page := fetch(final.count, final.pages[0]);
      var o := Visit(final, page);
      final := o.state;
      if o.status != Running {
        status := o.status;
        break;
      }
      left := left - 1;
    }
    if status == Running && final.pages == [] {
      status := Exhausted;
    }
    RunKeepsResultsDistinct(Start(seed), fetch, fuel);
    if Distinct(seed) {
      RunKeepsPagesDistinct(Start(seed), fetch, fuel);
    }
    RunStops(Start(seed), fetch, fuel);
  }
}
