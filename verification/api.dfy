/** The request checks and status-page helpers of `internal/api/api.go`:
    the page count every listing reports, the content-length and URL-scheme
    checks, the display truncations, the neighbor lookups and the uptime and
    feature formatting. Gin routing, binding and HTML are left out. */
module Api {
  import opened Wrappers
  import GoInt
  import GoTime
  import GoStrings
  import Strconv
  import Storage
  import Registry
  import NodeService
  import Iteration

  // ---------------------------------------------------------------------------
  // Listing responses

  /** `(int(total) + pageSize - 1) / pageSize`; `None` is Go's
      integer-divide-by-zero panic, reached with `page_size=0`. */
  function TotalPages(total: int, pageSize: int): (r: Option<int>)
    ensures r.None? <==> pageSize == 0
    ensures r.Some? && pageSize > 0 && total >= 0 ==>
      r.value >= 0 && (r.value - 1) * pageSize < total <= r.value * pageSize
  {
    if pageSize == 0 then None
    else
      var q := GoInt.Quo(total + pageSize - 1, pageSize);
      assert (q - 1) * pageSize == q * pageSize - pageSize;
      Some(q)
  }

  lemma MulMonotone(a: int, b: int, c: int)
    requires a <= b && c >= 0
    ensures a * c <= b * c
  {
  }

  /** The page count agrees with the pages `paginate` serves: a page from 1
      on holds elements exactly when its number is at most the count. */
  lemma TotalPagesCountsPages<T>(items: seq<T>, page: int, pageSize: int)
    requires page >= 1 && pageSize > 0
    ensures var r := Storage.Paginate(items, page, pageSize);
      r.Ok? && (|r.value.items| > 0 <==> page <= TotalPages(|items|, pageSize).value)
  {
    var q := TotalPages(|items|, pageSize).value;
    var start := Storage.PageStart(page, pageSize);
    if page <= q {
      MulMonotone(page - 1, q - 1, pageSize);
      assert start < |items|;
    } else {
      MulMonotone(q, page - 1, pageSize);
      assert start >= |items|;
    }
  }

  // ---------------------------------------------------------------------------
  // Request checks

  const MaxContentLength: int := 2000

  /** The post and reply check: the 400 message, or `None` when accepted.
      In the routes an empty content never reaches this message: both
      request types mark `content` as `binding:"required"`, and gin's
      binding rejects "" with its own 400 first. */
  function ContentError(content: string): (err: Option<string>)
    ensures err.None? <==> 1 <= |content| <= MaxContentLength
    ensures err.Some? ==> err.value == "Content must be between 1 and 2000 characters"
  {
    if |content| == 0 || |content| > MaxContentLength
    then Some("Content must be between 1 and 2000 characters")
    else None
  }

  /** The neighbor URL check of both add-neighbor routes. */
  function UrlError(url: string): (err: Option<string>)
    ensures err.None? <==> GoStrings.HasPrefix(url, "http://") || GoStrings.HasPrefix(url, "https://")
    ensures err.Some? ==> err.value == "URL must start with http:// or https://"
  {
    if !GoStrings.HasPrefix(url, "http://") && !GoStrings.HasPrefix(url, "https://")
    then Some("URL must start with http:// or https://")
    else None
  }

  /** Every callback URL the registry builds would pass the neighbor URL check. */
  lemma CallbackUrlPassesUrlCheck(callbackDomain: string)
    ensures UrlError(Registry.CallbackUrl(callbackDomain)).None?
  {
    var url := Registry.CallbackUrl(callbackDomain);
    var rest := callbackDomain + "/api/v1/handshake/result";
    if GoStrings.Contains(callbackDomain, "localhost") || GoStrings.Contains(callbackDomain, "127.0.0.1") {
      assert url == "http://" + rest;
      assert url[..|"http://"|] == "http://";
    } else {
      assert url == "https://" + rest;
      assert url[..|"https://"|] == "https://";
    }
  }

  // ---------------------------------------------------------------------------
  // Display truncation

  /** Widths of the status pages' capability column: 60 for nodes and local
      agents, 50 for registry agents. */
  const NodeCapabilityWidth: int := 60
  const AgentCapabilityWidth: int := 50

  /** A text longer than `width` bytes becomes its first `width - 3` bytes
      followed by "..."; anything else is shown whole. */
  function Ellipsize(s: string, width: int): (r: string)
    requires width >= 3
    ensures |r| <= width || r == s
    ensures |s| <= width ==> r == s
    ensures |s| > width ==>
      |r| == width && GoStrings.HasPrefix(s, r[..width - 3]) && GoStrings.HasSuffix(r, "...")
  {
    if |s| > width then s[..width - 3] + "..." else s
  }

  /** The capability column: the capabilities joined by ", " and shortened. */
  function CapabilitySummary(capabilities: seq<string>, width: int): (r: string)
    requires width >= 3
    ensures |r| <= width
  {
    Ellipsize(GoStrings.Join(capabilities, ", "), width)
  }

  /** Shortening is idempotent: a shortened text is shown as it is. */
  lemma EllipsizeIdempotent(s: string, width: int)
    requires width >= 3
    ensures Ellipsize(Ellipsize(s, width), width) == Ellipsize(s, width)
  {
  }

  const NodeIdWidth: int := 8

  /** The node column of the agents table: IDs longer than 8 bytes are shown
      as their first 8 bytes and "...", which is 11 bytes long. */
  function ShortNodeId(id: string): (r: string)
    ensures |id| <= NodeIdWidth ==> r == id
    ensures |id| > NodeIdWidth ==>
      |r| == NodeIdWidth + 3 && r[..NodeIdWidth] == id[..NodeIdWidth] && GoStrings.HasSuffix(r, "...")
  {
    if |id| > NodeIdWidth then id[..NodeIdWidth] + "..." else id
  }

  /** A shortened ID shortens to itself, and long IDs sharing their first
      8 bytes are shown alike. */
  lemma ShortNodeIdStable(id: string, other: string)
    ensures ShortNodeId(ShortNodeId(id)) == ShortNodeId(id)
    ensures |id| > NodeIdWidth && |other| > NodeIdWidth && id[..NodeIdWidth] == other[..NodeIdWidth] ==>
      ShortNodeId(id) == ShortNodeId(other)
  {
    if |id| > NodeIdWidth {
      var r := ShortNodeId(id);
      assert r[..NodeIdWidth] == id[..NodeIdWidth];
    }
  }

  // ---------------------------------------------------------------------------
  // Neighbor routes

  /** The status route: the first listed neighbor with that domain. */
  function FindByDomain(ns: seq<NodeService.Neighbor>, domain: string): (r: Option<NodeService.Neighbor>)
    ensures r.None? <==> forall i :: 0 <= i < |ns| ==> ns[i].domain != domain
    ensures r.Some? ==> exists i :: (0 <= i < |ns| && ns[i] == r.value && ns[i].domain == domain
      && forall j :: 0 <= j < i ==> ns[j].domain != domain)
  {
    if |ns| == 0 then None
    else if ns[0].domain == domain then Some(ns[0])
    else
      var r := FindByDomain(ns[1..], domain);
      assert forall k :: 1 <= k < |ns| ==> ns[k] == ns[1..][k - 1];
      assert r.Some? ==> exists i :: (0 <= i < |ns| && ns[i] == r.value && ns[i].domain == domain
        && forall j :: 0 <= j < i ==> ns[j].domain != domain) by {
        if r.Some? {
          var i :| 0 <= i < |ns[1..]| && ns[1..][i] == r.value && ns[1..][i].domain == domain
            && forall j :: 0 <= j < i ==> ns[1..][j].domain != domain;
          assert forall j :: 0 <= j < i + 1 ==> ns[j].domain != domain by {
            forall j | 0 <= j < i + 1 ensures ns[j].domain != domain {
              if j > 0 { assert ns[j] == ns[1..][j - 1]; }
            }
          }
        }
      }
      r
  }

  /** Every neighbor is filed under its own domain. */
  predicate KeyedByDomain(table: NodeService.Table) {
    forall d :: d in table ==> table[d].domain == d
  }

  /** Adding a neighbor keeps the table filed by domain. */
  lemma AddNeighborKeepsKeyed(table: NodeService.Table, domain: string, url: string, now: int, pingOk: bool)
    requires KeyedByDomain(table)
    ensures var r := NodeService.AddNeighbor(table, domain, url, now, pingOk);
      r.Ok? ==> KeyedByDomain(r.value)
  {
  }

  /** In a table filed by domain, the status route's scan finds exactly the
      neighbor a direct lookup finds, whatever the iteration order. */
  lemma FindByDomainIsLookup(table: NodeService.Table, order: seq<string>, domain: string)
    requires KeyedByDomain(table) && Iteration.Enumerates(table, order)
    ensures FindByDomain(NodeService.Values(table, order), domain) == NodeService.GetNeighbor(table, domain)
  {
    var ns := NodeService.Values(table, order);
    var r := FindByDomain(ns, domain);
    if domain in table {
      var i :| 0 <= i < |order| && order[i] == domain;
      assert ns[i].domain == domain;
      var k :| 0 <= k < |ns| && ns[k] == r.value && ns[k].domain == domain
        && forall j :: 0 <= j < k ==> ns[j].domain != domain;
      assert order[k] == domain;
    } else {
      forall i | 0 <= i < |ns| ensures ns[i].domain != domain {
        assert ns[i] == table[order[i]];
      }
    }
  }

  /** What a route answers: the HTTP status and the table it leaves. */
  datatype Answer = Answer(status: int, table: NodeService.Table)

  /** `DELETE /neighbors/:domain`: removes the neighbor, if any, and always
      answers 200. */
  function DeleteNeighbor(table: NodeService.Table, domain: string): (r: Answer)
    ensures r.status == 200
    ensures r.table.Keys == table.Keys - {domain} && forall d :: d in r.table ==> r.table[d] == table[d]
  {
    Answer(200, NodeService.RemoveNeighbor(table, domain))
  }

  // ---------------------------------------------------------------------------
  // Status page

  /** `formatDuration`: "<days>d <hours>h" once the whole hours reach a day,
      else "<hours>h <minutes>m", with Go's truncating `/` and `%`. */
  function FormatDuration(d: int): string {
    var hours := GoTime.WholeHours(d);
    var days := GoInt.Quo(hours, 24);
    var h := GoInt.Rem(hours, 24);
    if days > 0 then Strconv.Itoa(days) + "d " + Strconv.Itoa(h) + "h"
    else Strconv.Itoa(h) + "h " + Strconv.Itoa(GoInt.Rem(GoTime.WholeMinutes(d), 60)) + "m"
  }

  /** A duration under a day shows its whole hours and the minutes past them. */
  lemma ShortDuration(d: int)
    requires 0 <= d < 24 * GoTime.Hour
    ensures FormatDuration(d) ==
      Strconv.Itoa(d / GoTime.Hour) + "h " + Strconv.Itoa((d / GoTime.Minute) % 60) + "m"
  {
    GoInt.QuoNonNegative(d, GoTime.Hour);
    GoInt.QuoNonNegative(d, GoTime.Minute);
    var hours := d / GoTime.Hour;
    var minutes := d / GoTime.Minute;
    assert GoTime.WholeHours(d) == hours && GoTime.WholeMinutes(d) == minutes;
    assert 0 <= hours < 24;
    GoInt.QuoNonNegative(hours, 24);
    GoInt.QuoNonNegative(minutes, 60);
    assert GoInt.Quo(hours, 24) == 0 && GoInt.Rem(hours, 24) == hours;
    assert GoInt.Rem(GoTime.WholeMinutes(d), 60) == minutes % 60;
  }

  /** A duration of a day or more shows its whole days and the whole hours
      past them. */
  lemma LongDuration(d: int)
    requires d >= 24 * GoTime.Hour
    ensures FormatDuration(d) ==
      Strconv.Itoa((d / GoTime.Hour) / 24) + "d " + Strconv.Itoa((d / GoTime.Hour) % 24) + "h"
  {
    GoInt.QuoNonNegative(d, GoTime.Hour);
    var hours := d / GoTime.Hour;
    assert GoTime.WholeHours(d) == hours;
    assert hours >= 24;
    GoInt.QuoNonNegative(hours, 24);
    assert GoInt.Quo(hours, 24) == hours / 24 > 0 && GoInt.Rem(hours, 24) == hours % 24;
  }

  /** `strings.Join(ps + [x], sep)` appends the separator and `x`. */
  lemma {:induction false} JoinSnoc(ps: seq<string>, x: string, sep: string)
    requires |ps| > 0
    ensures GoStrings.Join(ps + [x], sep) == GoStrings.Join(ps, sep) + sep + x
  {
    if |ps| == 1 {
      assert (ps + [x])[1..] == [x];
    } else {
      JoinSnoc(ps[1..], x, sep);
      assert (ps + [x])[1..] == ps[1..] + [x];
    }
  }

  /** `joinFeatures`, loop and all: "None" for no features, otherwise what
      `strings.Join` with ", " gives. */
  method JoinFeatures(features: seq<string>) returns (result: string)
    ensures |features| == 0 ==> result == "None"
    ensures |features| > 0 ==> result == GoStrings.Join(features, ", ")
  {
    if |features| == 0 {
      return "None";
    }
    result := "";
    var i := 0;
    while i < |features|
      invariant 0 <= i <= |features|
      invariant i == 0 ==> result == ""
      invariant i > 0 ==> result == GoStrings.Join(features[..i], ", ")
    {
      if i > 0 {
        result := result + ", ";
      }
      if i > 0 {
        JoinSnoc(features[..i], features[i], ", ");
        assert features[..i + 1] == features[..i] + [features[i]];
      } else {
        assert features[..1] == [features[0]];
      }
      result := result + features[i];
      i := i + 1;
    }
    assert features[..i] == features;
  }
}
