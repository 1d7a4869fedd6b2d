/** Worked crawls on concrete pages. */
module Scenarios {
  import opened Text
  import opened Pages
  import opened Accumulate
  import opened Crawl

  /** The two net-block hrefs, made absolute. */
  lemma ScenarioUrls()
    ensures BaseUrl + "/net/10.0.0.0/24" == "http://bgp.he.net//net/10.0.0.0/24"
    ensures BaseUrl + "/net/10.0.1.0/24" == "http://bgp.he.net//net/10.0.1.0/24"
  {
    assert BaseUrl == "http://bgp.he.net/";
  }

  /** Of the hrefs of the AS page below, the two net-block ones are kept. */
  lemma ScenarioLinks(hrefs: seq<string>, h0: string, h1: string, h2: string)
    requires h0 == "/net/10.0.0.0/24" && h1 == "/country/US" && h2 == "/net/10.0.1.0/24"
    requires hrefs == [h0, h1, h2]
    ensures NetLinks(hrefs) == ["http://bgp.he.net//net/10.0.0.0/24", "http://bgp.he.net//net/10.0.1.0/24"]
  {
    assert OccursAt(h0, NetMarker, 0) && OccursAt(h2, NetMarker, 0);
    ContainsIff(h0, NetMarker);
    ContainsIff(h2, NetMarker);
    assert 'e' !in h1;
    ContainsNeedsEveryChar(h1, NetMarker, 'e');
    assert hrefs[1..] == [h1, h2];
    assert hrefs[1..][1..] == [h2];
    assert NetLinks([h2]) == [BaseUrl + h2];
    assert NetLinks([h1, h2]) == [BaseUrl + h2];
    ScenarioUrls();
  }

  /** The CIDR of one net-block URL of the AS page below. */
  lemma ScenarioCidr(u: string, address: string, cidr: string)
    requires || (address == "10.0.0.0" && u == "http://bgp.he.net//net/10.0.0.0/24" && cidr == "10.0.0.0/24")
             || (address == "10.0.1.0" && u == "http://bgp.he.net//net/10.0.1.0/24" && cidr == "10.0.1.0/24")
    ensures Cidr(u) == cidr
  {
    assert u == "http://bgp.he.net//net" + "/" + address + "/" + "24";
    assert cidr == address + "/" + "24";
    assert '/' !in address && '/' !in "24";
    CidrOfLastTwo("http://bgp.he.net//net", address, "24");
  }

  /** Their CIDRs. */
  lemma ScenarioCidrs(u0: string, u1: string, c0: string, c1: string)
    requires u0 == "http://bgp.he.net//net/10.0.0.0/24" && u1 == "http://bgp.he.net//net/10.0.1.0/24"
    requires c0 == "10.0.0.0/24" && c1 == "10.0.1.0/24"
    ensures Cidrs([u0, u1]) == [c0, c1]
  {
    ScenarioCidr(u0, "10.0.0.0", c0);
    ScenarioCidr(u1, "10.0.1.0", c1);
    assert [u0, u1][1..] == [u1] && [u1][1..] == [];
    assert Cidrs([u1]) == [Cidr(u1)];
  }

  /** Both are new to the pending list and to the (empty) net blocks. */
  lemma ScenarioAppends(url: string, u0: string, u1: string, c0: string, c1: string)
    requires url == "http://bgp.he.net/AS1234"
    requires u0 == "http://bgp.he.net//net/10.0.0.0/24" && u1 == "http://bgp.he.net//net/10.0.1.0/24"
    requires c0 == "10.0.0.0/24" && c1 == "10.0.1.0/24"
    ensures IncludeAll([url], [u0, u1]) == [url, u0, u1]
    ensures IncludeAll([], [c0, c1]) == [c0, c1]
  {
    assert [u0, u1][1..] == [u1];
    assert |url| != |u0| && |url| != |u1|;
    assert u0[28] != u1[28];
    assert Include([url], u0) == [url, u0];
    assert Include([url, u0], u1) == [url, u0, u1];
    assert IncludeAll([url, u0], [u1]) == IncludeAll([url, u0, u1], []);
    assert [c0, c1][1..] == [c1];
    assert c0[5] != c1[5];
    assert Include([], c0) == [c0];
    assert Include([c0], c1) == [c0, c1];
    assert IncludeAll([c0], [c1]) == IncludeAll([c0, c1], []);
  }

  lemma ScenarioIsAsPage(url: string)
    requires url == "http://bgp.he.net/AS1234"
    ensures Classify(url) == AsPage
  {
    assert AsNumberAt(url, 18);
    ClassifyMeaning(url);
  }

  /** The first iteration on an AS page that links two net blocks and one
      page of another kind records both CIDRs, replaces the AS URL by the
      two net-block URLs and counts one page; the other link is dropped. */
  lemma AsPageScenario(url: string, page: Page)
    requires url == "http://bgp.he.net/AS1234"
    requires page == Page("", ["/net/10.0.0.0/24", "/country/US", "/net/10.0.1.0/24"], None)
    ensures Iterate(Start([url]), page) ==
      Outcome(State(["http://bgp.he.net//net/10.0.0.0/24", "http://bgp.he.net//net/10.0.1.0/24"],
                    ["10.0.0.0/24", "10.0.1.0/24"], [], 1),
              Running)
  {
    ScenarioIsAsPage(url);
    var u0, u1 := "http://bgp.he.net//net/10.0.0.0/24", "http://bgp.he.net//net/10.0.1.0/24";
    ScenarioLinks(page.hrefs, page.hrefs[0], page.hrefs[1], page.hrefs[2]);
    ScenarioCidrs(u0, u1, "10.0.0.0/24", "10.0.1.0/24");
    ScenarioAppends(url, u0, u1, "10.0.0.0/24", "10.0.1.0/24");
    var s := Start([url]);
    AsPageSucceeds(s, page);
    var a := ScrapeAs(s, page);
    assert a.pages == [url, u0, u1] && a.netBlocks == ["10.0.0.0/24", "10.0.1.0/24"];
    assert a.pages[1..] == [u0, u1];
  }

  /** A DNS row with an empty PTR cell and an A-record link yields the
      A-record name and nothing else. */
  lemma ARecordScenario(rows: seq<Row>)
    requires rows == [Row([Cell(None), Cell(None), Cell(Some(Anchor(["host.example.com"])))])]
    ensures AddRowNames([], rows) == RowsOutcome(["host.example.com"], true)
  {
  }

  /** "http://bgp.he.net//net/AS1" and "http://bgp.he.net//net/AS2" are AS
      pages by the classifier, although they contain "/net/". */
  lemma CycleUrls(u: string, v: string)
    requires u == BaseUrl + "/net/AS1" && v == BaseUrl + "/net/AS2"
    ensures u != v && Classify(u) == AsPage && Classify(v) == AsPage
  {
    assert BaseUrl == "http://bgp.he.net/";
    assert u[25] != v[25];
    assert AsNumberAt(u, 23) && AsNumberAt(v, 23);
    ClassifyMeaning(u);
    ClassifyMeaning(v);
  }

  lemma CycleLinks(h: string)
    requires h == "/net/AS1" || h == "/net/AS2"
    ensures NetLinks([h]) == [BaseUrl + h]
  {
    assert OccursAt(h, NetMarker, 0);
    ContainsIff(h, NetMarker);
  }

  /** Two AS pages that each link the other through a "/net/" href keep
      the crawl running whatever the fuel. */
  lemma CycleScenario(fuel: nat)
    ensures var u := BaseUrl + "/net/AS1";
      var fetch := (n: nat, x: string) =>
        if x == u then Page("", ["/net/AS2"], None) else Page("", ["/net/AS1"], None);
      Run(Start([u]), fetch, fuel).status == Running
  {
    var u, v := BaseUrl + "/net/AS1", BaseUrl + "/net/AS2";
    var fetch := (n: nat, x: string) =>
      if x == u then Page("", ["/net/AS2"], None) else Page("", ["/net/AS1"], None);
    CycleUrls(u, v);
    CycleLinks("/net/AS1");
    CycleLinks("/net/AS2");
    assert OnlyLinks(fetch, u, v) && OnlyLinks(fetch, v, u);
    MutualLinksNeverStop(u, v, Start([u]), fetch, fuel);
  }
}
