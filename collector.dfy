/** The UKURLCollector class of src/url_collector.py: the seed directories,
    the collected_urls set that every directory worker merges its links into,
    and the rows save_results writes.

    The thread pool, the lock and as_completed are replaced by a sequential
    loop that merges the per-directory results in the order the workers take the lock;
    the final set does not depend on that order. */
module Collector {
  import opened Wrappers
  import opened Urls
  import opened Scrape
  import opened Ordering

  /** The directory seeds, in the order the class lists them. */
  const Seeds: seq<string> := [
    "https://www.yell.com",
    "https://www.freeindex.co.uk",
    "https://www.thomsonlocal.com",
    "https://www.hotfrog.co.uk",
    "https://www.scoot.co.uk",
    "https://www.cylex-uk.co.uk",
    "https://uk.kompass.com",
    "https://www.touch-local.com",
    "https://www.find-open.co.uk",
    "https://www.opendi.co.uk",
    "https://www.gov.uk/government/organisations",
    "https://www.bbc.co.uk/news",
    "https://www.britishcouncil.org"
  ]

  /** The union of a list of sets, left to right. */
  function UnionAll(results: seq<set<string>>): set<string> {
    if results == [] then {}
    else UnionAll(results[..|results| - 1]) + results[|results| - 1]
  }

  /** A URL is in the union exactly when some of the sets holds it. */
  lemma {:induction false} UnionAllMembers(results: seq<set<string>>, u: string)
    ensures u in UnionAll(results) <==> exists i :: 0 <= i < |results| && u in results[i]
  {
    if results != [] {
      var n := |results| - 1;
      UnionAllMembers(results[..n], u);
      assert forall i :: 0 <= i < n ==> results[..n][i] == results[i];
    }
  }

  /** Every seed's result ends up in the union, whether or not others failed. */
  lemma EachResultContributes(results: seq<set<string>>, i: nat)
    requires i < |results|
    ensures results[i] <= UnionAll(results)
  {
    forall u | u in results[i] ensures u in UnionAll(results) {
      UnionAllMembers(results, u);
    }
  }

  /** The order in which the directory workers take the lock: every seed
      index exactly once. */
  predicate IsLockOrder(order: seq<nat>, n: nat) {
    && |order| == n
    && (forall k :: 0 <= k < n ==> order[k] < n)
    && (forall i :: 0 <= i < n ==> i in order)
  }

  /** The per-directory results merged in a given lock order. */
  function UnionInOrder(results: seq<set<string>>, order: seq<nat>): set<string>
    requires forall k :: 0 <= k < |order| ==> order[k] < |results|
  {
    if order == [] then {}
    else UnionInOrder(results, order[..|order| - 1]) + results[order[|order| - 1]]
  }

  /** The size of each merged set, in the order of merging. */
  function SizesInOrder(results: seq<set<string>>, order: seq<nat>): (r: seq<nat>)
    requires forall k :: 0 <= k < |order| ==> order[k] < |results|
    ensures |r| == |order|
  {
    if order == [] then []
    else SizesInOrder(results, order[..|order| - 1]) + [|results[order[|order| - 1]]|]
  }

  lemma {:induction false} SizesInOrderAt(results: seq<set<string>>, order: seq<nat>, j: nat)
    requires forall k :: 0 <= k < |order| ==> order[k] < |results|
    requires j < |order|
    ensures SizesInOrder(results, order)[j] == |results[order[j]]|
  {
    if j < |order| - 1 {
      SizesInOrderAt(results, order[..|order| - 1], j);
    }
  }

  lemma {:induction false} UnionInOrderMembers(results: seq<set<string>>, order: seq<nat>, u: string)
    requires forall k :: 0 <= k < |order| ==> order[k] < |results|
    ensures u in UnionInOrder(results, order) <==>
      exists k :: 0 <= k < |order| && u in results[order[k]]
  {
    if order != [] {
      var n := |order| - 1;
      UnionInOrderMembers(results, order[..n], u);
      assert forall k :: 0 <= k < n ==> order[..n][k] == order[k];
    }
  }

  /** Whatever order the workers finish in, the merged set is the union of
      the per-directory sets. */
  lemma LockOrderIrrelevant(results: seq<set<string>>, order: seq<nat>)
    requires IsLockOrder(order, |results|)
    ensures UnionInOrder(results, order) == UnionAll(results)
  {
    forall u ensures u in UnionInOrder(results, order) <==> u in UnionAll(results) {
      UnionInOrderMembers(results, order, u);
      UnionAllMembers(results, u);
      if u in UnionAll(results) {
        var i :| 0 <= i < |results| && u in results[i];
        assert i in order;
        var k :| 0 <= k < |order| && order[k] == i;
      }
    }
  }

  /** What each seed's scrape_directory returns, in seed order. */
  function DirectoryResults(directories: seq<string>, pages: seq<Page>, join: Joiner): (r: seq<set<string>>)
    requires |pages| == |directories|
    ensures |r| == |directories|
    ensures forall i :: 0 <= i < |r| ==> r[i] == ScrapeResult(directories[i], pages[i], join)
  {
    seq(|directories|, i requires 0 <= i < |directories| => ScrapeResult(directories[i], pages[i], join))
  }

  /** One row of the output file. */
  datatype Row = Row(url: string, domain: string)

  const Header: Row := Row("url", "domain")

  class UkUrlCollector {
    const directories: seq<string>
    var collectedUrls: set<string>

    /** Everything collected is a UK URL without query or fragment. */
    ghost predicate Valid()
      reads this
    {
      forall u :: u in collectedUrls ==> IsStored(u)
    }

    constructor ()
      ensures directories == Seeds && collectedUrls == {}
      ensures Valid()
    {
      directories := Seeds;
      collectedUrls := {};
    }

    /** self.collected_urls.update(urls): the set only grows, and merging
        URLs already present changes nothing. */
    method Merge(urls: set<string>)
      modifies this
      ensures collectedUrls == old(collectedUrls) + urls
      ensures old(collectedUrls) <= collectedUrls
      ensures urls <= old(collectedUrls) ==> collectedUrls == old(collectedUrls)
      ensures (forall u :: u in urls ==> IsStored(u)) ==> (old(Valid()) ==> Valid())
    {
      collectedUrls := collectedUrls + urls;
    }

    /** directory_worker: scrape one directory, merge its links under the
        lock and report how many it found. */
    method DirectoryWorker(directory: string, page: Page, join: Joiner) returns (count: nat)
      modifies this
      ensures collectedUrls == old(collectedUrls) + ScrapeResult(directory, page, join)
      ensures count == |ScrapeResult(directory, page, join)|
      ensures old(Valid()) ==> Valid()
    {
      var urls := ScrapeDirectory(directory, page, join);
      Merge(urls);
      count := |urls|;
    }

    /** collect_from_directories: one worker per seed; pages[i] is what the
        fetch of directories[i] yields and order is the order in which the
        workers take the lock. */
    method CollectFromDirectories(pages: seq<Page>, order: seq<nat>, join: Joiner) returns (counts: seq<nat>)
      requires |pages| == |directories|
      requires IsLockOrder(order, |directories|)
      modifies this
      ensures collectedUrls == old(collectedUrls) + UnionAll(DirectoryResults(directories, pages, join))
      ensures |counts| == |order|
      ensures forall k :: 0 <= k < |order| ==>
        counts[k] == |ScrapeResult(directories[order[k]], pages[order[k]], join)|
      ensures old(Valid()) ==> Valid()
    {
      ghost var results := DirectoryResults(directories, pages, join);
      counts := [];
      var k := 0;
      while k < |order|
        invariant 0 <= k <= |order|
        invariant collectedUrls == old(collectedUrls) + UnionInOrder(results, order[..k])
        invariant |counts| == k
        invariant counts == SizesInOrder(results, order[..k])
        invariant old(Valid()) ==> Valid()
      {
        var d := order[k];
        assert order[..k + 1][..k] == order[..k] && order[..k + 1][k] == d;
        assert UnionInOrder(results, order[..k + 1]) == UnionInOrder(results, order[..k]) + results[d];
        assert SizesInOrder(results, order[..k + 1]) == SizesInOrder(results, order[..k]) + [|results[d]|];
        assert results[d] == ScrapeResult(directories[d], pages[d], join);
        var count := DirectoryWorker(directories[d], pages[d], join);
        counts := counts + [count];
        k := k + 1;
      }
      assert order[..k] == order;
      LockOrderIrrelevant(results, order);
      forall j | 0 <= j < |order|
        ensures counts[j] == |ScrapeResult(directories[order[j]], pages[order[j]], join)|
      {
        SizesInOrderAt(results, order, j);
      }
    }

    /** save_results: the header, then one (url, netloc) row per collected
        URL in ascending order. urlparse raises on a URL with an unbalanced
        bracket in its netloc; ok is false when that happens, and it cannot
        happen to a collector that keeps Valid(). */
    method SaveResults() returns (rows: seq<Row>, ok: bool)
      ensures ok <==> forall u :: u in collectedUrls ==> ParseNetloc(u).Some?
      ensures Valid() ==> ok
      ensures ok ==> |rows| == |collectedUrls| + 1 && rows[0] == Header
      ensures ok ==> forall i, j :: 1 <= i < j < |rows| ==> Less(rows[i].url, rows[j].url)
      ensures ok ==> forall u :: u in collectedUrls <==> exists i :: 1 <= i < |rows| && rows[i].url == u
      ensures ok ==> forall i :: 1 <= i < |rows| ==> ParseNetloc(rows[i].url) == Some(rows[i].domain)
    {
      var urls := Sorted(collectedUrls);
      rows := [Header];
      for i := 0 to |urls|
        invariant |rows| == i + 1 && rows[0] == Header
        invariant forall j :: 1 <= j <= i ==> rows[j].url == urls[j - 1]
        invariant forall j :: 1 <= j <= i ==> ParseNetloc(rows[j].url) == Some(rows[j].domain)
      {
        match ParseNetloc(urls[i])
        case None =>
          assert urls[i] in collectedUrls;
          ok := false;
          return;
        case Some(domain) =>
          rows := rows + [Row(urls[i], domain)];
      }
      ok := true;
      forall u | u in collectedUrls ensures ParseNetloc(u).Some? && exists i :: 1 <= i < |rows| && rows[i].url == u {
        var j :| 0 <= j < |urls| && urls[j] == u;
        assert rows[j + 1].url == u;
      }
    }
  }
}
