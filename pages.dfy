/** The pure, per-page pieces of the crawl in bgp.py: how a URL is
    classified, how a CIDR is cut out of a URL, which anchors of an AS page
    become new URLs, how a row of the DNS table names a host, and how a
    failure is read as a quota stop or a fatal error. */
module Pages {
  import opened Text

  datatype Option<T> = None | Some(value: T)

  /** Prefix put in front of every kept href (bgp.py:64). */
  const BaseUrl: string := "http://bgp.he.net/"
  /** Marker of a net-block URL or href (bgp.py:64, 74). */
  const NetMarker: string := "/net/"
  /** The two sentinels of a net-block page without DNS rows (bgp.py:80). */
  const NoDnsRecords: string := "No DNS Records Found"
  const NoResults: string := "did not return any results"
  /** The sentinel of an exhausted query quota (bgp.py:104). */
  const QueryLimit: string := "You have reached your query limit"

  datatype PageKind = AsPage | NetPage | UnknownPage

  /** The state of a crawl: still going, or one of the three ways it stops. */
  datatype Status = Running | Exhausted | RateLimited | Fatal

  /** The AS test comes first; only a URL that fails it can be a net page. */
  function Classify(url: string): PageKind
  {
    if HasAsNumber(url) then AsPage
    else if Contains(url, NetMarker) then NetPage
    else UnknownPage
  }

  /** A URL is an AS page exactly when it holds "AS" and a digit anywhere; a
      net page exactly when it holds no such place but holds "/net/"; and
      unknown exactly when it holds neither. */
  lemma ClassifyMeaning(url: string)
    ensures Classify(url) == AsPage <==> exists i :: AsNumberAt(url, i)
    ensures Classify(url) == NetPage <==>
      (forall i :: !AsNumberAt(url, i)) && exists i :: OccursAt(url, NetMarker, i)
    ensures Classify(url) == UnknownPage <==>
      (forall i :: !AsNumberAt(url, i)) && forall i :: !OccursAt(url, NetMarker, i)
  {
    HasAsNumberIff(url);
    ContainsIff(url, NetMarker);
  }

  /** Python's `parts[-2:]`. */
  function LastTwo(parts: seq<string>): seq<string>
  {
    if |parts| <= 2 then parts else parts[|parts| - 2..]
  }

  /** The CIDR of a net-block URL: `"/".join(url.split("/")[-2:])`. */
  function Cidr(url: string): string
  {
    Join(LastTwo(Split(url, '/')), '/')
  }

  /** The CIDR is made of exactly the URL's last two `/`-segments (all of
      them when there are fewer). */
  lemma CidrSegments(url: string)
    ensures Split(Cidr(url), '/') == LastTwo(Split(url, '/'))
  {
    var parts := Split(url, '/');
    var last := LastTwo(parts);
    assert forall k :: 0 <= k < |last| ==> last[k] == parts[|parts| - |last| + k];
    SplitJoin(last, '/');
  }

  /** The CIDR is always a suffix of its URL. */
  lemma CidrIsSuffix(url: string)
    ensures |Cidr(url)| <= |url|
    ensures url[|url| - |Cidr(url)|..] == Cidr(url)
  {
    var parts := Split(url, '/');
    JoinSplit(url, '/');
    if |parts| > 2 {
      var n := |parts|;
      assert parts == parts[..n - 2] + parts[n - 2..];
      JoinAppend(parts[..n - 2], parts[n - 2..], '/');
    }
  }

  /** The CIDR of `.../<address>/<length>` is `<address>/<length>`. */
  lemma CidrOfLastTwo(front: string, address: string, length: string)
    requires '/' !in address && '/' !in length
    ensures Cidr(front + "/" + address + "/" + length) == address + "/" + length
  {
    var url := front + "/" + address + "/" + length;
    assert url == front + ['/'] + (address + ['/'] + length);
    SplitAround(front, '/', address + ['/'] + length);
    SplitAround(address, '/', length);
    SplitWithoutSeparator(address, '/');
    SplitWithoutSeparator(length, '/');
    var parts := Split(front, '/') + [address] + [length];
    assert Split(url, '/') == parts;
    assert LastTwo(parts) == [address, length];
    assert Join([address, length], '/') == address + ['/'] + Join([length], '/');
  }

  /** A URL without any `/` is its own CIDR. */
  lemma CidrWithoutSlash(url: string)
    requires '/' !in url
    ensures Cidr(url) == url
  {
    SplitWithoutSeparator(url, '/');
  }

  /** Two slash-free parts joined by one `/` hold no other `/`. */
  lemma OneSlashBetween(x: string, y: string)
    requires '/' !in x && '/' !in y
    ensures forall i :: 0 <= i < |x + ['/'] + y| && i != |x| ==> (x + ['/'] + y)[i] != '/'
  {
    var r := x + ['/'] + y;
    forall i | 0 <= i < |r| && i != |x| ensures r[i] != '/' {
      if i < |x| {
        assert r[i] == x[i];
      } else {
        assert r[i] == y[i - |x| - 1];
      }
    }
  }

  /** The CIDR holds at most one `/`; with two segments it sits between them. */
  lemma CidrAtMostOneSlash(url: string)
    ensures forall i, j :: 0 <= i < j < |Cidr(url)| && Cidr(url)[i] == '/' ==> Cidr(url)[j] != '/'
  {
    var parts := Split(url, '/');
    var last := LastTwo(parts);
    assert forall k :: 0 <= k < |last| ==> '/' !in last[k];
    if |last| == 2 {
      var x, y := last[0], last[1];
      assert last[1..] == [y];
      assert Join(last, '/') == x + ['/'] + y;
      OneSlashBetween(x, y);
    } else if |last| == 1 {
      assert Cidr(url) == last[0];
    }
  }

  /** The kept hrefs of an AS page, made absolute (bgp.py:64): every href
      containing "/net/", in document order, behind the base URL. */
  function NetLinks(hrefs: seq<string>): seq<string>
    decreases |hrefs|
  {
    if hrefs == [] then []
    else
      var head := if Contains(hrefs[0], NetMarker) then [BaseUrl + hrefs[0]] else [];
      head + NetLinks(hrefs[1..])
  }

  /** No more links than hrefs; each starts with the base URL and still
      contains "/net/". */
  lemma {:induction false} NetLinksShape(hrefs: seq<string>)
    ensures |NetLinks(hrefs)| <= |hrefs|
    ensures forall k :: 0 <= k < |NetLinks(hrefs)| ==>
      var link := NetLinks(hrefs)[k];
      |BaseUrl| <= |link| && link[..|BaseUrl|] == BaseUrl && Contains(link, NetMarker)
    decreases |hrefs|
  {
    if hrefs != [] {
      NetLinksShape(hrefs[1..]);
      if Contains(hrefs[0], NetMarker) {
        ContainsAfterPrefix(BaseUrl, hrefs[0], NetMarker);
      }
    }
  }

  /** A URL is among the links of an AS page exactly when some href of the
      page contains "/net/" and the URL is that href behind the base URL. */
  lemma {:induction false} NetLinksMembers(hrefs: seq<string>, u: string)
    ensures u in NetLinks(hrefs) <==>
      exists k :: 0 <= k < |hrefs| && Contains(hrefs[k], NetMarker) && u == BaseUrl + hrefs[k]
    decreases |hrefs|
  {
    if hrefs != [] {
      NetLinksMembers(hrefs[1..], u);
      if exists k :: 0 <= k < |hrefs| && Contains(hrefs[k], NetMarker) && u == BaseUrl + hrefs[k] {
        var k :| 0 <= k < |hrefs| && Contains(hrefs[k], NetMarker) && u == BaseUrl + hrefs[k];
        if k > 0 {
          assert hrefs[1..][k - 1] == hrefs[k];
        }
      }
      if u in NetLinks(hrefs[1..]) {
        var k :| 0 <= k < |hrefs| - 1 && Contains(hrefs[1..][k], NetMarker) && u == BaseUrl + hrefs[1..][k];
        assert hrefs[k + 1] == hrefs[1..][k];
      }
    }
  }

  /** Every link taken from an AS page is classified again as an AS page or
      a net page, never as unknown. */
  lemma NetLinksAreKnown(hrefs: seq<string>)
    ensures forall u :: u in NetLinks(hrefs) ==> Classify(u) != UnknownPage
  {
    NetLinksShape(hrefs);
    forall u | u in NetLinks(hrefs) ensures Classify(u) != UnknownPage {
      ContainsIff(u, NetMarker);
      ClassifyMeaning(u);
    }
  }

  /** The CIDR of each link, in order (bgp.py:65). */
  function Cidrs(links: seq<string>): seq<string>
    decreases |links|
  {
    if links == [] then [] else [Cidr(links[0])] + Cidrs(links[1..])
  }

  lemma {:induction false} CidrsAt(links: seq<string>)
    ensures |Cidrs(links)| == |links|
    ensures forall k :: 0 <= k < |links| ==> Cidrs(links)[k] == Cidr(links[k])
    decreases |links|
  {
    if links != [] {
      CidrsAt(links[1..]);
    }
  }

  /** An `<a>` element; `contents` are the texts of its children. */
  datatype Anchor = Anchor(contents: seq<string>)

  /** A `<td>` of the DNS table, with its first anchor if it has one. */
  datatype Cell = Cell(link: Option<Anchor>)

  /** A `<tr>` of the DNS table's body. */
  datatype Row = Row(cells: seq<Cell>)

  /** What a row yields: the name chosen for it, possibly none, or
      Malformed when reading it raises (a missing cell or an empty anchor). */
  datatype RowName = Named(name: Option<string>) | Malformed

  /** The cell has an anchor with nothing inside, so `contents[0]` raises. */
  predicate EmptyAnchor(cell: Cell)
  {
    cell.link.Some? && cell.link.value.contents == []
  }

  /** The PTR cell is the second one; the A-record cell is the last one. */
  function PtrCell(row: Row): Cell
    requires |row.cells| >= 2
  {
    row.cells[1]
  }

  function ARecordCell(row: Row): Cell
    requires |row.cells| >= 2
  {
    row.cells[|row.cells| - 1]
  }

  /** The first text of the cell's anchor, if the cell has one. */
  function LinkText(cell: Cell): Option<string>
    requires !EmptyAnchor(cell)
  {
    match cell.link
    case None => None
    case Some(a) => Some(a.contents[0])
  }

  /** The name of one DNS row (bgp.py:86-95): the A-record link text when
      the A-record cell has a link, else the PTR link text when the PTR cell
      has one, else no name. The row raises when it has fewer than two cells
      or one of the two anchors is empty. */
  function ResolveRow(row: Row): RowName
  {
    if |row.cells| < 2 then Malformed
    else
      var ptr := row.cells[1];
      var aRecord := row.cells[|row.cells| - 1];
      if EmptyAnchor(ptr) || EmptyAnchor(aRecord) then Malformed
      else
        var fromPtr := if ptr.link.Some? then LinkText(ptr) else None;
        var chosen := if aRecord.link.Some? then LinkText(aRecord) else fromPtr;
        Named(chosen)
  }

  /** A row raises exactly when it has fewer than two cells or one of its
      two anchors is empty; otherwise the A-record link wins over the PTR
      link, and a row with neither yields no name. */
  lemma ResolveRowMeaning(row: Row)
    ensures ResolveRow(row).Malformed? <==>
      |row.cells| < 2 || EmptyAnchor(PtrCell(row)) || EmptyAnchor(ARecordCell(row))
    ensures ResolveRow(row).Named? && ARecordCell(row).link.Some? ==>
      ResolveRow(row).name == Some(ARecordCell(row).link.value.contents[0])
    ensures ResolveRow(row).Named? && ARecordCell(row).link.None? && PtrCell(row).link.Some? ==>
      ResolveRow(row).name == Some(PtrCell(row).link.value.contents[0])
    ensures ResolveRow(row).Named? && ARecordCell(row).link.None? && PtrCell(row).link.None? ==>
      ResolveRow(row).name == None
  {
  }

  /** The page says it has no DNS records to list (bgp.py:80). */
  predicate NoDnsListing(source: string)
  {
    Contains(source, NoDnsRecords) || Contains(source, NoResults)
  }

  /** How an exception is read (bgp.py:104-113): the quota sentinel in the
      page means a clean quota stop, anything else is fatal. */
  function ErrorPolicy(source: string): (s: Status)
    ensures s == RateLimited || s == Fatal
  {
    if Contains(source, QueryLimit) then RateLimited else Fatal
  }

  /** A quota stop exactly when the sentinel occurs somewhere in the page. */
  lemma ErrorPolicyMeaning(source: string)
    ensures ErrorPolicy(source) == RateLimited <==> exists i :: OccursAt(source, QueryLimit, i)
    ensures ErrorPolicy(source) == Fatal <==> forall i :: !OccursAt(source, QueryLimit, i)
  {
    ContainsIff(source, QueryLimit);
  }

  /** What the browser shows for one URL: the raw page source, the `href`
      of every anchor that has one (in document order), and the body rows of
      the element with id "dns" (None when that element or its body is
      missing, so that reading them raises). */
  datatype Page = Page(source: string, hrefs: seq<string>, dnsTable: Option<seq<Row>>)
}
