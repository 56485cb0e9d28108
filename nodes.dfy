/** `NodeService` (src/services/nodes.ts): a pool of Ethereum node endpoint
    URLs scraped from a node-list web page. The page is given as what its
    parser selects: one record per candidate node div, saying whether it is
    marked up and the values of the endpoint inputs inside it. */
module Nodes {

  /** One `div.node` of the page: whether it carries the `up` class, and the
      `value` attributes of its `input.endpoint` descendants, in document order. */
  datatype NodeDiv = NodeDiv(up: bool, endpoints: seq<string>)

  /** The outcome of fetching and loading the page: a failure of the fetch or
      of reading its text, or the parsed divs in document order. */
  datatype Page = Unreachable(reason: string) | Loaded(divs: seq<NodeDiv>)

  /** The endpoint values of the up divs, div after div. */
  function Collect(divs: seq<NodeDiv>): (urls: seq<string>)
    ensures |urls| <= Size(divs)
  {
    if divs == [] then []
    else (if divs[0].up then divs[0].endpoints else []) + Collect(divs[1..])
  }

  /** How many endpoint inputs the divs hold in all. */
  function Size(divs: seq<NodeDiv>): nat {
    if divs == [] then 0 else |divs[0].endpoints| + Size(divs[1..])
  }

  /** What one scrape appends: nothing when the page could not be had. */
  function Scraped(page: Page): seq<string> {
    match page
    case Unreachable(_) => []
    case Loaded(divs) => Collect(divs)
  }

  /** Collecting over two runs of divs is collecting over each in turn. */
  lemma {:induction false} CollectAppend(a: seq<NodeDiv>, b: seq<NodeDiv>)
    ensures Collect(a + b) == Collect(a) + Collect(b)
  {
    if a == [] {
      assert a + b == b;
    } else {
      assert (a + b)[0] == a[0] && (a + b)[1..] == a[1..] + b;
      CollectAppend(a[1..], b);
    }
  }

  /** Collecting one more div appends its endpoints when it is up. */
  lemma CollectNext(divs: seq<NodeDiv>, i: nat)
    requires i < |divs|
    ensures Collect(divs[..i + 1]) == Collect(divs[..i]) + (if divs[i].up then divs[i].endpoints else [])
  {
    var div := divs[i];
    CollectAppend(divs[..i], [div]);
    assert divs[..i + 1] == divs[..i] + [div];
    assert [div][1..] == [];
    assert Collect([div]) == (if div.up then div.endpoints else []) + [];
  }

  /** Only up divs contribute: a URL is collected exactly when some up div
      holds it. */
  lemma {:induction false} CollectMembers(divs: seq<NodeDiv>, url: string)
    ensures url in Collect(divs) <==>
      exists i :: 0 <= i < |divs| && divs[i].up && url in divs[i].endpoints
  {
    if divs != [] {
      CollectMembers(divs[1..], url);
      if url in Collect(divs[1..]) {
        var i :| 0 <= i < |divs[1..]| && divs[1..][i].up && url in divs[1..][i].endpoints;
        assert divs[i + 1] == divs[1..][i];
      }
      if exists i :: 0 <= i < |divs| && divs[i].up && url in divs[i].endpoints {
        var i :| 0 <= i < |divs| && divs[i].up && url in divs[i].endpoints;
        if i > 0 {
          assert divs[1..][i - 1] == divs[i];
        }
      }
    }
  }

  /** A page whose divs are all down yields nothing. */
  lemma {:induction false} CollectAllDown(divs: seq<NodeDiv>)
    requires forall i :: 0 <= i < |divs| ==> !divs[i].up
    ensures Collect(divs) == []
  {
    if divs != [] {
      CollectAllDown(divs[1..]);
    }
  }

  class NodeService {
    /** The pool; it only ever grows. */
    var nodes: seq<string>

    /** A fresh service has an empty pool. */
    constructor ()
      ensures nodes == []
    {
      nodes := [];
    }

    /** scrapeNodes: appends the endpoint values of the up divs, in document
        order; never removes or deduplicates. A failure to fetch the page is
        caught and leaves the pool as it was. */
    method ScrapeNodes(page: Page)
      modifies this
      ensures nodes == old(nodes) + Scraped(page)
    {
      if page.Loaded? {
        var divs := page.divs;
        var i := 0;
        while i < |divs|
          invariant 0 <= i <= |divs|
          invariant nodes == old(nodes) + Collect(divs[..i])
        {
          var div := divs[i];
          if div.up {
            var j := 0;
            while j < |div.endpoints|
              invariant 0 <= j <= |div.endpoints|
              invariant nodes == old(nodes) + Collect(divs[..i]) + div.endpoints[..j]
            {
              nodes := nodes + [div.endpoints[j]];
              j := j + 1;
            }
            assert div.endpoints[..j] == div.endpoints;
          }
          CollectNext(divs, i);
          i := i + 1;
        }
        assert divs[..i] == divs;
      }
    }

    /** getNodes: the current pool, unchanged. */
    method GetNodes() returns (r: seq<string>)
      ensures r == nodes
    {
      r := nodes;
    }
  }

  /** Scraping never deduplicates: after two scrapes of the same page, each
      URL it yields is in the pool twice more often than before. */
  lemma RescrapeDoubles(pool: seq<string>, page: Page, url: string)
    ensures multiset(pool + Scraped(page) + Scraped(page))[url]
      == multiset(pool)[url] + 2 * multiset(Scraped(page))[url]
  {
  }
}
