# bgp.py crawl loop in Dafny

This project models `process_pages` from `bgp.py`, the crawler at the heart
of the tool. The crawler starts from a list of bgp.he.net URLs and keeps a
list of pending pages. It processes the page at the front of that list on
every pass:

- An **AS page** is one whose URL matches `AS[0-9]+`. Every anchor of the
  page whose href contains `/net/` becomes an absolute link. The CIDR of
  each link (its last two `/`-segments) is added to `net_blocks`, and
  each link is appended to the pending pages.
- A **net-block page** is one whose URL is not an AS URL but contains
  `/net/`. Its own CIDR is added to `net_blocks`. Unless the page says it
  has no DNS records, the rows of its DNS table are read in order:
  - A row names a host by the text of its A-record link, or, when the
    A-record cell has no link, of its PTR link.
  - A row with neither link names nothing, and an empty name is dropped.
  - A row with fewer than two cells, or with an empty anchor in either of
    those cells, raises, which ends the crawl.

  Each new name is added to `domains`.
- Any **other URL** is only counted.

All three lists are append-if-absent. A successful pass counts the page and
pops it. An exception ends the crawl without popping the page:

- if the page shows the quota sentinel, it is a clean stop (`RateLimited`);
- otherwise it is an unexpected failure (`Fatal`).

Either way, the results gathered so far are returned.

Modules:

- `Text` (`text.dfy`): the Python string operations the crawler uses:
  - `in` on strings;
  - the regular expression `AS[0-9]+`;
  - `split`/`join` on one character.

  Each scan is proved equal to its declarative reading, and split and join
  are proved to be inverses.
- `Pages` (`pages.dfy`): the per-page pieces. These are the constants and
  sentinels, URL classification, CIDR extraction, link extraction, the
  resolution of a DNS row, and the error policy.
- `Accumulate` (`accumulate.dfy`): the append-if-absent discipline, as a
  function `IncludeAll`, its loop `AppendNew`, and their properties.
- `Crawl` (`crawl.dfy`): the crawl.
  - `Iterate` is one pass of the loop body, and `Run`/`Continue` are the
    whole loop.
  - The methods `AddNames`, `Visit` and `ProcessPages` are the loops of the
    source, proved equal to those functions.
  - Lemmas give what one pass does and what the whole crawl does.
- `Scenarios` (`scenarios.dfy`): worked crawls on concrete pages.

The browser is an oracle `fetch(n, url)`: the page shown for `url` as the
`n`-th page fetched. A page is its raw source, the hrefs of its anchors,
and the body rows of its DNS table. The table is `None` when the element or
its body is missing, so reading it raises. Because the oracle is indexed by
fetch, a page may change between visits, as a quota page does.

The loop need not terminate. A URL that has been popped may be enqueued
again, so two AS pages that link each other keep the crawl going for ever
(`Crawl.MutualLinksNeverStop`, `Scenarios.CycleScenario`). `Run` and
`ProcessPages` therefore take a `fuel` bound. They return status `Running`
when the fuel runs out before the crawl stops.

Where the docstring of `process_pages` (bgp.py:30-51) and the code differ,
the model follows the code:

- **How a page is classified.** The docstring speaks of URLs that match
  `/AS####` (bgp.py:34). The code's test matches anywhere in the URL, so
  `http://bgp.he.net//net/AS1` is an AS page (`Scenarios.CycleUrls`).
- **The name of the second result list.** The docstring calls it
  `domain_names` (bgp.py:49), but the code uses `domains` (bgp.py:52).

A failing page keeps what it added. The code records a failing net-block
page's own CIDR, and the names of the DNS rows before the row that raised,
before the exception ends the crawl. These stay in the results
(`Crawl.IterateFailure`).

## Model

| member | source | states |
|---|---|---|
| Text.Contains | bgp.py:64 | Python's `sub in s`, trying each start position from the left; `Text.ContainsIff` gives its meaning |
| Text.ContainsIff | bgp.py:64 | Python's `sub in s` holds exactly when `sub` occurs at some index of `s` |
| Text.HasAsNumber | bgp.py:59 | whether `re.findall("AS[0-9]+", s)` finds a match, scanning from the left; `Text.HasAsNumberIff` gives its meaning |
| Text.HasAsNumberIff | bgp.py:59 | `re.findall("AS[0-9]+", url)` is non-empty exactly when "AS" followed by a digit occurs somewhere in the URL |
| Text.Split | bgp.py:65 | `split` always gives at least one part, and no part contains the separator |
| Text.Join | bgp.py:65 | Python's `c.join(parts)`; `Text.JoinSplit` and `Text.SplitJoin` prove it the inverse of `Split` |
| Text.JoinSplit | bgp.py:65 | joining the parts of a split with the same separator gives back the text |
| Text.SplitJoin | bgp.py:77 | splitting a join gives back the parts, when none of them contains the separator |
| Pages.Classify | bgp.py:59-99 | the branch a URL takes. It is an AS page if the AS pattern matches, otherwise a net page if the URL contains "/net/", otherwise unknown; `Pages.ClassifyMeaning` characterises it |
| Pages.ClassifyMeaning | bgp.py:59-100 | a URL is an AS page iff it holds "AS"+digit; a net page iff it does not but holds "/net/"; unknown iff neither. The AS test takes precedence |
| Pages.Cidr | bgp.py:77 | `"/".join(url.split("/")[-2:])`; the Cidr lemmas below characterise it |
| Pages.CidrIsSuffix | bgp.py:77 | the CIDR cut out of a URL is a suffix of that URL |
| Pages.CidrSegments | bgp.py:77 | the CIDR's `/`-segments are exactly the URL's last two segments (all of them when there are fewer) |
| Pages.CidrOfLastTwo | bgp.py:65 | the CIDR of `.../<address>/<length>` is `<address>/<length>` |
| Pages.CidrWithoutSlash | bgp.py:77 | a URL without `/` is its own CIDR |
| Pages.CidrAtMostOneSlash | bgp.py:77 | a CIDR holds at most one `/` |
| Pages.NetLinks | bgp.py:64 | the absolute links of an AS page: each href containing "/net/", in document order, behind the base URL; `Pages.NetLinksShape` and `Pages.NetLinksMembers` characterise it |
| Pages.NetLinksShape | bgp.py:63-64 | there are no more links than hrefs; each link starts with the base URL and contains "/net/" |
| Pages.NetLinksMembers | bgp.py:64 | a URL is a link of the page iff it is some "/net/"-containing href behind the base URL |
| Pages.NetLinksAreKnown | bgp.py:64 | every link taken from an AS page is classified as an AS or net page, never as unknown |
| Pages.Cidrs | bgp.py:65 | the CIDRs of a page's links, one per link; `Pages.CidrsAt` characterises it |
| Pages.CidrsAt | bgp.py:65 | one CIDR per link, in order, each the CIDR of its link |
| Pages.ResolveRow | bgp.py:86-95 | the name one DNS row yields, or that reading it raises. `Pages.ResolveRowMeaning` gives its cases, and `Crawl.AddNames` proves it equal to the source's statements |
| Pages.NoDnsListing | bgp.py:80 | the page source shows either of the two no-DNS sentinels, so the DNS table is skipped |
| Pages.ResolveRowMeaning | bgp.py:86-95 | a row raises iff it has fewer than two cells or an empty PTR or A-record anchor. Otherwise its name is the A-record link text if there is one, else the PTR link text, else none |
| Pages.ErrorPolicy | bgp.py:103-113 | an exception always ends the crawl, as a quota stop or as a fatal error |
| Pages.ErrorPolicyMeaning | bgp.py:104-113 | quota stop iff the quota sentinel occurs in the page source; fatal iff it does not |
| Accumulate.Include | bgp.py:78-79 | one `if x not in l: l.append(x)` |
| Accumulate.IncludeAll | bgp.py:66-72 | append-if-absent keeps the old list as an initial segment of the new one |
| Accumulate.IncludeAllMembers | bgp.py:66-72 | afterwards the list holds exactly the old entries and the new values |
| Accumulate.IncludeAllKeepsDistinct | bgp.py:66-72 | append-if-absent never creates a duplicate |
| Accumulate.IncludeAllGrowth | bgp.py:69-72 | the list grows by exactly the number of distinct new values not already present |
| Accumulate.IncludeAllConcat | bgp.py:85-98 | appending the values of `a + b` is appending those of `a`, then those of `b` |
| Accumulate.AppendNew | bgp.py:66-72 | the `for … if not in: append` loop computes `IncludeAll` |
| Crawl.ReadableRows | bgp.py:85-95 | counts the rows before the first malformed one: all of them are readable, and the next one (if any) is malformed |
| Crawl.RowNames | bgp.py:96 | the names the rows contribute are never empty |
| Crawl.ReadableNamesUnfold | bgp.py:85-98 | when the first row is readable, its names come first, then those of the readable rows after it |
| Crawl.AddRowNames | bgp.py:85-98 | the row loop as a function: the domains after the rows of one page, and whether no row raised; `Crawl.AddRowNamesMeaning` gives its closed form |
| Crawl.AddRowNamesMeaning | bgp.py:85-98 | the row loop appends the non-empty names of the rows before the first malformed one, in order and without duplicates. It succeeds iff no row is malformed |
| Crawl.AddRowNamesNonEmpty | bgp.py:96-98 | the row loop adds no empty name |
| Crawl.AddNames | bgp.py:85-98 | the row loop, written statement by statement as in the source, computes `AddRowNames`: it reads the PTR link, then lets the A-record link override it, and stops at a missing cell or an empty anchor. This is the independent reading of `ResolveRow` |
| Crawl.ScrapeAs | bgp.py:62-72 | the AS branch: the CIDRs of the links go into `net_blocks`, then the links go into the pending list |
| Crawl.ScrapeNet | bgp.py:77-98 | the net branch: the page's CIDR first, then, unless a no-DNS sentinel shows, the DNS rows; a missing table or a row that raises makes it fail |
| Crawl.Iterate | bgp.py:56-114 | one pass of the loop body: the branch taken, then on success the count and the pop, on failure the error policy with the URL left pending. The `Iterate` lemmas below characterise it |
| Crawl.IterateSuccess | bgp.py:101-114 | a successful pass counts one page and pops the front URL. The later URLs stay in order, and only an AS page adds any |
| Crawl.AsPageGrowth | bgp.py:69-72 | after an AS page, the pending list grows by the distinct links not already pending, minus the popped URL |
| Crawl.IterateCounts | bgp.py:101-114 | the page is counted iff the pass succeeds; a failing pass leaves the count and the pending list alone |
| Crawl.IterateFailure | bgp.py:74-113 | a pass can fail only on a net page without a no-DNS sentinel. The URL stays pending, and it is a quota stop iff the sentinel is present. The page's CIDR is kept. Without a table no domain is added; with one, some row raised and the names of the rows before it are kept |
| Crawl.NetPageAlwaysRecordsCidr | bgp.py:77-79 | a net page's own CIDR is recorded, whether the pass succeeds or raises |
| Crawl.NetPageReadsTable | bgp.py:77-98 | a net page with no no-DNS sentinel and a table whose rows all read succeeds. Its CIDR is recorded, the non-empty names of all its rows are appended if absent, and the URL is popped and counted |
| Crawl.MissingTableAddsNoDomain | bgp.py:80-84 | a net page without a DNS table fails after recording its CIDR and adds no domain |
| Crawl.NoDnsShortCircuit | bgp.py:77-80 | a net page with a no-DNS sentinel succeeds, records its CIDR and adds no domain, whatever its table holds |
| Crawl.AsPageSucceeds | bgp.py:59-72 | an AS page never fails: its CIDRs and links are appended, then the URL is popped and counted |
| Crawl.UnknownPageSkipped | bgp.py:99-102 | an unknown URL is counted and popped, and nothing else changes |
| Crawl.IterateKeepsDistinct | bgp.py:66-98 | one pass keeps both result lists free of duplicates |
| Crawl.IterateKeepsPagesDistinct | bgp.py:69-72 | one pass keeps the pending list free of duplicates |
| Crawl.IterateAppendOnly | bgp.py:66-98 | one pass only appends to the result lists |
| Crawl.IterateDomainsNonEmpty | bgp.py:96 | one pass adds no empty domain |
| Crawl.Run | bgp.py:54-114 | the `while pages` loop, for at most `fuel` passes: Exhausted when nothing is pending, otherwise one pass and `Continue` |
| Crawl.Continue | bgp.py:54-114 | after a pass, stop on a failure status and go on with `Run` while running; `Crawl.RunStops` and `Crawl.RunKeeps` characterise the pair |
| Crawl.ContinueKeeps | bgp.py:54-114 | a state property that every pass preserves holds of the whole crawl from any running outcome |
| Crawl.RunKeeps | bgp.py:54-114 | a state property that every pass preserves holds of the final state of the crawl |
| Crawl.RunKeepsResultsDistinct | bgp.py:52-115 | the returned `net_blocks` and `domains` never hold a duplicate |
| Crawl.RunKeepsPagesDistinct | bgp.py:69-72 | a seed without duplicates never gets a duplicate pending URL |
| Crawl.RunAppendOnly | bgp.py:103-115 | however the crawl stops, every earlier result list is an initial segment of the returned one |
| Crawl.RunDomainsNonEmpty | bgp.py:96 | the crawl never adds an empty domain |
| Crawl.ContinueStops | bgp.py:54-114 | from any running outcome: the crawl ends Exhausted iff nothing is pending; Running only with exactly `fuel` more pages counted; a quota or fatal stop sits on a net page whose sentinel decides which it is |
| Crawl.RunStops | bgp.py:54-114 | the same, for a crawl from any state: why it stopped, and how many pages it counted |
| Crawl.ContinueWithoutAsPagesStops | bgp.py:54-114 | with no AS page pending, a running crawl stops within as many passes as there are pending URLs |
| Crawl.RunWithoutAsPagesStops | bgp.py:54-114 | the same for a crawl from any state |
| Crawl.FollowOnlyLink | bgp.py:69-72 | an AS page alone in the list whose only link is another URL leaves exactly that URL pending |
| Crawl.MutualLinksNeverStop | bgp.py:69-114 | two AS pages that link each other keep the crawl running whatever the fuel |
| Crawl.Visit | bgp.py:56-114 | the loop body computes `Iterate` |
| Crawl.ProcessPages | bgp.py:29-115 | the loop computes `Run` from the seed, and the results are free of duplicates. It ends Exhausted iff nothing is pending, counts `fuel` pages if still running, and a quota or fatal stop leaves a net page at the front |
| Scenarios.AsPageScenario | bgp.py:59-72 | a worked AS page with two net-block links and one other link |
| Scenarios.ARecordScenario | bgp.py:86-98 | a row with an empty PTR cell and an A-record link yields the A-record name |
| Scenarios.CycleScenario | bgp.py:59-114 | two concrete AS pages linking each other never let the crawl stop |

## Left out

- `get_choice` and `main` (bgp.py:11-27, 117 onward): the user prompt, the option parsing and the output files are outside the crawl loop.
- Selenium and BeautifulSoup. They become the `Page` oracle. The model does not parse HTML. A page is its source text, the hrefs of its anchors (only anchors with an href are kept), and the rows of its `dns` table body.
- `driver.get(url)` (bgp.py:57) sits outside the `try`, so an exception while fetching would escape `process_pages`. The oracle never fails, so this is not modelled.
- The `print` calls (bgp.py:100-109) are output only and are not modelled; neither is the exception text.
- The diagnostics `driver.save_screenshot('debug.png')` and the `debug.html` write (bgp.py:110-112) run unguarded inside the `except` handler. An exception they raise (an unwritable directory, an encoding error) escapes `process_pages`, and the results are lost. The model assumes these writes succeed, so a fatal error always returns status `Fatal` with the results gathered so far.
- Regular expressions in general. Only the two patterns the loop uses are modelled: `AS[0-9]+`, as "AS" followed by a digit, and the literal `/net/`.
- Exceptions in the AS branch. The branch cannot raise in the model. Its two subscripts are safe: `x['href']` (bgp.py:64) is guarded by `find_all('a', href=True)`, and the slice `[-2:]` (bgp.py:65) never raises. Exceptions that BeautifulSoup or the driver might raise are not modelled.
- Non-string link contents. `contents[0]` of an anchor is modelled as a string; a nested tag in it is not modelled.
- ProcessPages: returns the final pending list instead of mutating the caller's list in place, and returns the state and the status instead of a results dictionary. The caller cannot observe the list aliasing.
- ProcessPages: the loop is bounded by `fuel`, because it need not terminate. A crawl that would run for ever ends with status `Running`.
