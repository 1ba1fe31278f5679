/** scrape_directory of src/url_collector.py: classify each href of a page,
    keep the UK ones, strip their query and fragment and gather them in a set.

    The page fetch (requests.get with a random User-Agent) and the HTML parse
    (BeautifulSoup's find_all('a', href=True)) are replaced by the Page value
    they produce; urljoin is the parameter `join`, whose None stands for
    urljoin raising. */
module Scrape {
  import opened Wrappers
  import opened Urls
  import opened UrlJoin

  /** What fetching and parsing a directory yields: the href of every anchor
      in document order, or the failure of the request or of the parse. */
  datatype Page = Fetched(hrefs: seq<string>) | FetchFailed

  /** What one href becomes before the host test. */
  datatype Candidate = Absolute(url: string) | Skipped | JoinRaised

  /** What the loop body does with one href. */
  datatype Outcome = Keep(link: string) | Drop | Raise

  /** urljoin(base, href), or None where it raises. */
  type Joiner = (string, string) -> Option<string>

  /** The branch of the loop body: root-relative hrefs are joined to the page
      URL, hrefs starting with "http" are taken as they are, and the rest are
      skipped. */
  function Resolve(base: string, href: string, join: Joiner): Candidate {
    if StartsWith(href, "/") then
      match join(base, href)
      case Some(u) => Absolute(u)
      case None => JoinRaised
    else if StartsWith(href, "http") then Absolute(href)
    else Skipped
  }

  /** The whole loop body for one href: a UK candidate is kept in its cleaned
      form, a failed join leaves the loop, anything else is dropped. */
  function Examine(base: string, href: string, join: Joiner): Outcome {
    match Resolve(base, href, join)
    case Absolute(fullUrl) => if IsUkDomain(fullUrl) then Keep(Clean(fullUrl)) else Drop
    case Skipped => Drop
    case JoinRaised => Raise
  }

  /** The links set built from the outcomes in order, or None once one of
      them raised. */
  function Gather(outcomes: seq<Outcome>): Option<set<string>> {
    if outcomes == [] then Some({})
    else
      var before := Gather(outcomes[..|outcomes| - 1]);
      match outcomes[|outcomes| - 1]
      case Raise => None
      case Drop => before
      case Keep(link) => if before.None? then None else Some(before.value + {link})
  }

  /** The outcome of every href of a page. */
  function Outcomes(base: string, hrefs: seq<string>, join: Joiner): (r: seq<Outcome>)
    ensures |r| == |hrefs|
    ensures forall i :: 0 <= i < |hrefs| ==> r[i] == Examine(base, hrefs[i], join)
  {
    seq(|hrefs|, i requires 0 <= i < |hrefs| => Examine(base, hrefs[i], join))
  }

  /** The links set after the loop has run over hrefs, or None once urljoin
      has raised (the exception leaves the loop). */
  function LinksOf(base: string, hrefs: seq<string>, join: Joiner): Option<set<string>> {
    Gather(Outcomes(base, hrefs, join))
  }

  /** What scrape_directory(url) returns: the links, or the empty set when the
      fetch, the parse or a join failed. */
  function ScrapeResult(url: string, page: Page, join: Joiner): set<string> {
    match page
    case FetchFailed => {}
    case Fetched(hrefs) =>
      match LinksOf(url, hrefs, join)
      case Some(links) => links
      case None => {}
  }

  /** A URL fit for the collected set: a UK URL with no query or fragment. */
  predicate IsStored(u: string) {
    IsUkDomain(u) && '?' !in u && '#' !in u
  }

  /** scrape_directory(url) once the page is fetched: the loop over the
      hrefs with links.add, leaving with the empty set on any failure. */
  method ScrapeDirectory(url: string, page: Page, join: Joiner) returns (links: set<string>)
    ensures links == ScrapeResult(url, page, join)
    ensures forall u :: u in links ==> IsStored(u)
    ensures page.FetchFailed? ==> links == {}
  {
    if page.FetchFailed? {
      return {};
    }
    var hrefs := page.hrefs;
    ghost var outcomes := Outcomes(url, hrefs, join);
    links := {};
    var i := 0;
    while i < |hrefs|
      invariant 0 <= i <= |hrefs|
      invariant Gather(outcomes[..i]) == Some(links)
      invariant forall u :: u in links ==> IsStored(u)
    {
      var href := hrefs[i];
      assert outcomes[..i + 1][..i] == outcomes[..i];
      var fullUrl;
      if StartsWith(href, "/") {
        var joined := join(url, href);
        if joined.None? {
          GatherRaises(outcomes, i);
          return {};
        }
        fullUrl := joined.value;
      } else if StartsWith(href, "http") {
        fullUrl := href;
      } else {
        i := i + 1;
        continue;
      }
      if IsUkDomain(fullUrl) {
        var cleanUrl := Clean(fullUrl);
        CleanKeepsNetloc(fullUrl);
        links := links + {cleanUrl};
      }
      i := i + 1;
    }
    assert outcomes[..i] == outcomes;
  }

  /** One raising outcome makes the whole gathering fail. */
  lemma {:induction false} GatherRaises(outcomes: seq<Outcome>, i: nat)
    requires i < |outcomes| && outcomes[i].Raise?
    ensures Gather(outcomes).None?
    decreases |outcomes|
  {
    if i < |outcomes| - 1 {
      GatherRaises(outcomes[..|outcomes| - 1], i);
    }
  }

  /** Gathering fails exactly when some outcome raised. */
  lemma {:induction false} GatherNoneIff(outcomes: seq<Outcome>)
    ensures Gather(outcomes).None? <==> exists i :: 0 <= i < |outcomes| && outcomes[i].Raise?
  {
    if outcomes != [] {
      var n := |outcomes| - 1;
      var init := outcomes[..n];
      GatherNoneIff(init);
      if Gather(outcomes).None? && !outcomes[n].Raise? {
        var i :| 0 <= i < |init| && init[i].Raise?;
        assert outcomes[i] == init[i];
      }
      if !Gather(outcomes).None? {
        forall i | 0 <= i < |outcomes| ensures !outcomes[i].Raise? {
          if i < n {
            assert outcomes[i] == init[i];
          }
        }
      }
    }
  }

  /** A completed gathering holds exactly the kept links. */
  lemma {:induction false} GatherMembers(outcomes: seq<Outcome>, u: string)
    requires Gather(outcomes).Some?
    ensures u in Gather(outcomes).value <==> Keep(u) in outcomes
  {
    if outcomes != [] {
      var n := |outcomes| - 1;
      var init := outcomes[..n];
      assert outcomes == init + [outcomes[n]];
      GatherMembers(init, u);
    }
  }

  /** The loop gives up exactly when some href is root-relative and urljoin
      raises on it. */
  lemma LinksOfRaisesIff(base: string, hrefs: seq<string>, join: Joiner)
    ensures LinksOf(base, hrefs, join).None? <==>
      exists i :: 0 <= i < |hrefs| && StartsWith(hrefs[i], "/") && join(base, hrefs[i]).None?
  {
    var outcomes := Outcomes(base, hrefs, join);
    GatherNoneIff(outcomes);
    assert forall i :: 0 <= i < |hrefs| ==> (outcomes[i].Raise? <==> StartsWith(hrefs[i], "/") && join(base, hrefs[i]).None?);
  }

  /** When the loop completes, the links are exactly the cleaned forms of the
      UK candidates among the hrefs. */
  lemma LinksOfMembers(base: string, hrefs: seq<string>, join: Joiner, u: string)
    requires LinksOf(base, hrefs, join).Some?
    ensures u in LinksOf(base, hrefs, join).value <==>
      exists i :: 0 <= i < |hrefs| && Examine(base, hrefs[i], join) == Keep(u)
  {
    var outcomes := Outcomes(base, hrefs, join);
    GatherMembers(outcomes, u);
    if Keep(u) in outcomes {
      var i :| 0 <= i < |outcomes| && outcomes[i] == Keep(u);
      assert Examine(base, hrefs[i], join) == Keep(u);
    }
  }

  /** Every link scrape_directory returns is the cleaned form of a full URL
      that passed is_uk_domain, and is a prefix of that URL. */
  lemma LinkProvenance(url: string, page: Page, join: Joiner, u: string)
    requires u in ScrapeResult(url, page, join)
    ensures page.Fetched?
    ensures exists i, fullUrl ::
              && 0 <= i < |page.hrefs|
              && Resolve(url, page.hrefs[i], join) == Absolute(fullUrl)
              && IsUkDomain(fullUrl) && u == Clean(fullUrl) && StartsWith(fullUrl, u)
  {
    LinksOfMembers(url, page.hrefs, join, u);
    var i :| 0 <= i < |page.hrefs| && Examine(url, page.hrefs[i], join) == Keep(u);
    var fullUrl := Resolve(url, page.hrefs[i], join).url;
    assert Resolve(url, page.hrefs[i], join) == Absolute(fullUrl);
  }

  /** No joined root-relative href of the page starts with '/': urljoin
      never gives back a "/path" or "//host" reference for them. True of
      urljoin with an http or https base, whose result keeps the base's
      scheme. */
  predicate JoinNeverRootRelative(base: string, hrefs: seq<string>, join: Joiner) {
    forall i :: 0 <= i < |hrefs| && StartsWith(hrefs[i], "/") && join(base, hrefs[i]).Some? ==>
      !StartsWith(join(base, hrefs[i]).value, "/")
  }

  /** Under that assumption on urljoin, every link scrape_directory returns
      is absolute: it has a scheme and a non-empty netloc. */
  lemma StoredLinksAreAbsolute(url: string, page: Page, join: Joiner, u: string)
    requires page.Fetched? ==> JoinNeverRootRelative(url, page.hrefs, join)
    requires u in ScrapeResult(url, page, join)
    ensures SchemeEnd(u).Some? && Authority(u) != []
  {
    LinkProvenance(url, page, join, u);
    var i, fullUrl :|
      && 0 <= i < |page.hrefs|
      && Resolve(url, page.hrefs[i], join) == Absolute(fullUrl)
      && IsUkDomain(fullUrl) && u == Clean(fullUrl);
    var href := page.hrefs[i];
    if StartsWith(href, "/") {
      assert fullUrl == join(url, href).value;
    } else {
      HttpIsNotRootRelative(href);
    }
    CleanOfUkUrlIsAbsolute(fullUrl);
  }

  /** The join the model defines meets that assumption: on a seed with a
      scheme and authority, whose root-relative hrefs are absolute paths
      joined as section 5.2.2 of RFC 3986 says, no joined URL starts with
      '/'. */
  lemma AbsolutePathJoinNeverRootRelative(base: string, hrefs: seq<string>, join: Joiner)
    requires HasAuthority(base)
    requires forall i :: 0 <= i < |hrefs| && StartsWith(hrefs[i], "/") ==>
      IsAbsolutePath(hrefs[i]) && join(base, hrefs[i]) == Some(JoinAbsolutePath(base, hrefs[i]))
    ensures JoinNeverRootRelative(base, hrefs, join)
  {
    forall i | 0 <= i < |hrefs| && StartsWith(hrefs[i], "/") && join(base, hrefs[i]).Some?
      ensures !StartsWith(join(base, hrefs[i]).value, "/")
    {
      JoinKeepsScheme(base, hrefs[i]);
    }
  }

  lemma HttpIsNotRootRelative(href: string)
    requires StartsWith(href, "http")
    ensures !StartsWith(href, "/")
  {
    assert href[0] == 'h';
  }

  /** An href that starts with neither '/' nor "http" changes nothing. */
  lemma SkippedHrefAddsNothing(base: string, hrefs: seq<string>, href: string, join: Joiner)
    requires !StartsWith(href, "/") && !StartsWith(href, "http")
    ensures LinksOf(base, hrefs + [href], join) == LinksOf(base, hrefs, join)
  {
    var outcomes := Outcomes(base, hrefs + [href], join);
    assert outcomes[|hrefs|] == Drop;
    assert outcomes[..|hrefs|] == Outcomes(base, hrefs, join);
  }

  /** An href starting with "http" (so also "httpfoo") is tested verbatim. */
  lemma HttpHrefTakenVerbatim(base: string, href: string, join: Joiner)
    requires StartsWith(href, "http")
    ensures Resolve(base, href, join) == Absolute(href)
  {
    assert href[0] != '/';
  }

  /** A page none of whose hrefs is kept, or a failed fetch, gives the empty
      set. */
  lemma NothingKeptGivesEmpty(url: string, page: Page, join: Joiner)
    requires page.Fetched? ==> forall i :: 0 <= i < |page.hrefs| ==> !Examine(url, page.hrefs[i], join).Keep?
    ensures ScrapeResult(url, page, join) == {}
  {
    if page.Fetched? && LinksOf(url, page.hrefs, join).Some? {
      forall u | u in LinksOf(url, page.hrefs, join).value ensures false {
        LinksOfMembers(url, page.hrefs, join, u);
      }
    }
  }

  /** With urljoin resolving absolute paths as RFC 3986 does, a root-relative
      href is kept exactly when the page it is on is a UK URL. */
  lemma RootRelativeKeptIffUkBase(base: string, href: string, join: Joiner)
    requires HasAuthority(base) && IsAbsolutePath(href)
    requires join(base, href) == Some(JoinAbsolutePath(base, href))
    ensures Examine(base, href, join).Keep? <==> IsUkDomain(base)
  {
    JoinFollowsBase(base, href);
  }
}
