# UK URL collector — a Dafny model

The system is a small scraper class, `UKURLCollector` (src/url_collector.py). It
fetches a fixed list of business directories. It takes the `href` of every anchor
on each page and keeps the links whose netloc (user information, host and port) contains `.uk`. It strips their query
and fragment, merges them into one shared set and writes the set to a CSV file in
URL order. This project models the sequential logic under that plumbing and proves
what it promises:

- `urls.dfy` (module `Urls`): `is_uk_domain` and the clean-up
  `split('?')[0].split('#')[0]`. The netloc is extracted as Python's
  `urllib.parse.urlparse` does it, simplified. An optional scheme is split off at
  the first `:` (an ASCII letter, then letters, digits, `+`, `-`, `.`). When the
  remainder starts with `//`, the authority (section 3.2 of RFC 3986) runs up to
  the first `/`, `?` or `#`; otherwise the netloc is empty. A netloc holding only
  one of `[` and `]` makes urlparse raise `ValueError`. That is the failure path
  that `is_uk_domain` turns into `False`.
- `urljoin.dfy` (module `UrlJoin`): the absolute-path case of `urljoin`
  (section 5.2.2 of RFC 3986): a `/path` reference keeps the base's scheme and
  authority.
- `scrape.dfy` (module `Scrape`): the loop of `scrape_directory` as a method with
  a loop invariant, proved against a specification function over the page's
  hrefs.
- `ordering.dfy` (module `Ordering`): Python's `<` on `str` and `sorted()` on a
  set.
- `collector.dfy` (module `Collector`): the class with its `collectedUrls` set.
  It has the merge of `directory_worker`, the pool as a loop over the lock
  order, and the rows of `save_results`.
- `wrappers.dfy` (module `Wrappers`): `Option`.

Inputs that come from outside the program are parameters of the model:

- the page a fetch yields is a `Page`: the list of hrefs, or a failure of
  `requests.get` or of the HTML parse;
- `urljoin` is a parameter `join` that returns `None` where `urljoin` raises;
- the order in which the workers take the lock is a parameter `order`.

In four places the code does something a reader might not expect, and the model follows the code:

- The code keeps an href as absolute when it starts with `http` (so `httpfoo`
  too), not when it starts with any URI scheme.
- The test is containment of `.uk`, not a suffix test: `https://www.ukraine.com` passes.
- The test reads the whole netloc, user information and port included, not only the host: `https://a.uk@example.com/` passes although its host is `example.com`.
- An exception raised by `urljoin` in the middle of the loop discards the links
  already gathered for that directory, because the whole body is in one
  `try`.

## Model

| member | source | states |
|---|---|---|
| `Urls.StartsWith` | src/url_collector.py:75-77 | `str.startswith`: the string is at least as long as the prefix and begins with it |
| `Urls.Contains` | src/url_collector.py:41 | `t in s` on strings: `t` occurs in `s` at the start or further on |
| `Urls.ContainsAt` | src/url_collector.py:41 | an occurrence of `t` at any position is enough for `t in s` |
| `Urls.ContainsWitness` | src/url_collector.py:41 | conversely, `t in s` yields a position where `t` occurs |
| `Urls.BeforeFirst` | src/url_collector.py:84 | `s.split(sep)[0]`: a prefix of `s` without `sep`, followed in `s` by `sep` when it is shorter |
| `Urls.Lower` | src/url_collector.py:40 | `str.lower()` as far as `.uk` is concerned: same length, each character lowered by `LowerChar` |
| `Urls.LowerCharToUk` | src/url_collector.py:40 | exactly `.` lowers to `.`, exactly `u` and `U` to `u`, and exactly `k`, `K` and the Kelvin sign to `k` |
| `Urls.LowerContainsUkIff` | src/url_collector.py:40-41 | the lowered string contains `.uk` exactly when the string holds `.uk` in some letter case, stated without `Lower` |
| `Urls.Authority` | src/url_collector.py:40 | `urlparse(url).netloc`: after an optional scheme and a leading `//`, the text up to the first `/`, `?` or `#`; empty without `//` |
| `Urls.ParseNetloc` | src/url_collector.py:40 | the netloc, or the `ValueError` urlparse raises when it holds only one of `[` and `]` |
| `Urls.IsUkDomain` | src/url_collector.py:37-43 | `is_uk_domain`: False when urlparse raises, otherwise whether the lower-cased netloc contains `.uk` or `.co.uk` |
| `Urls.IndexOfAnyIsFirst` | src/url_collector.py:84 | the position found is that of the first character from the given set, or the length when there is none (`str.find`, and what `split(c)[0]` cuts at) |
| `Urls.Clean` | src/url_collector.py:84 | the cleaned URL contains neither `?` nor `#` and is a prefix of the full URL |
| `Urls.CleanCutsAtFirstDelimiter` | src/url_collector.py:84 | cutting at `?` and then at `#` is the same as cutting once at the first `?` or `#` |
| `Urls.CleanIdempotent` | src/url_collector.py:84 | cleaning a cleaned URL leaves it unchanged |
| `Urls.AuthorityHasNoDelimiter` | src/url_collector.py:40 | the netloc holds no `/`, `?` or `#` |
| `Urls.AuthorityFollowsSlashes` | src/url_collector.py:40 | a non-empty netloc comes right after a `//` of the URL |
| `Urls.NoSlashesNoNetloc` | src/url_collector.py:40 | a URL with no `//` has an empty netloc |
| `Urls.IsUkDomainIff` | src/url_collector.py:37-43 | `is_uk_domain` is total and holds exactly when urlparse succeeds and the lower-cased netloc contains `.uk`; a URL urlparse rejects gives False |
| `Urls.IsUkDomainAnyCase` | src/url_collector.py:37-43 | `is_uk_domain` holds exactly when urlparse succeeds and the netloc holds `.uk` in some letter case |
| `Urls.CoUkContainsUk` | src/url_collector.py:41 | a string containing `.co.uk` contains `.uk`, so the second test adds nothing |
| `Urls.UkSuffixAccepted` | src/url_collector.py:40-41 | a netloc ending in `.uk` in any letter case passes; an empty netloc does not |
| `Urls.ContainmentNotSuffix` | src/url_collector.py:41 | `https://www.ukraine.com` passes although its host does not end in `.uk` |
| `Urls.UserInfoCounts` | src/url_collector.py:40-41 | `https://a.uk@example.com/` passes: its netloc is `a.uk@example.com`, user information included |
| `Urls.UkUrlIsAbsolute` | src/url_collector.py:37-43 | a URL that passes and does not start with `/` has a scheme and a non-empty netloc |
| `Urls.AuthorityOfComposed` | src/url_collector.py:40 | the netloc of `scheme://host` followed by a path, query or fragment is `host` |
| `Urls.CutKeepsAuthority` | src/url_collector.py:82-84 | cutting a URL at its first `?` or `#` keeps its netloc |
| `Urls.CleanKeepsNetloc` | src/url_collector.py:82-84 | cleaning keeps the netloc, so the stored URL passes `is_uk_domain` exactly when the full URL did |
| `UrlJoin.JoinAbsolutePath` | src/url_collector.py:76 | the joined URL ends with the `/path` reference |
| `UrlJoin.JoinKeepsScheme` | src/url_collector.py:76 | the joined URL keeps the base's scheme, lower-cased, and so does not start with `/` |
| `UrlJoin.JoinKeepsAuthority` | src/url_collector.py:76 | a `/path` reference joined to a base keeps the base's netloc |
| `UrlJoin.JoinFollowsBase` | src/url_collector.py:75-76 | a joined root-relative link is a UK URL exactly when the base is |
| `Scrape.Resolve` | src/url_collector.py:75-80 | an href starting with `/` goes through `urljoin`, one starting with `http` is taken as it is, any other is skipped |
| `Scrape.Examine` | src/url_collector.py:75-85 | the loop body for one href: a UK full URL is kept in cleaned form, a raising `urljoin` leaves the loop, anything else is dropped |
| `Scrape.ScrapeResult` | src/url_collector.py:63-91 | what `scrape_directory` returns: the gathered links, or the empty set when the fetch, the parse or a join failed |
| `Scrape.ScrapeDirectory` | src/url_collector.py:63-91 | the returned set is the set the loop specification gives; every element is a UK URL without `?` or `#`; a failed fetch gives the empty set |
| `Scrape.GatherRaises` | src/url_collector.py:76-91 | one href on which `urljoin` raises makes the whole result fail |
| `Scrape.GatherNoneIff` | src/url_collector.py:71-91 | the loop fails exactly when some href's outcome raised |
| `Scrape.GatherMembers` | src/url_collector.py:71-87 | a completed loop holds exactly the links that some href's outcome kept |
| `Scrape.LinksOfRaisesIff` | src/url_collector.py:75-76 | the loop gives up exactly when some href starts with `/` and `urljoin` raises on it |
| `Scrape.LinksOfMembers` | src/url_collector.py:72-87 | a URL is in the links set exactly when some href is kept as that URL |
| `Scrape.LinkProvenance` | src/url_collector.py:82-85 | every returned link is the cleaned form, and a prefix, of a full URL built from an href for which `is_uk_domain` held |
| `Scrape.StoredLinksAreAbsolute` | src/url_collector.py:75-85 | when no joined root-relative href starts with `/`, every returned link has a scheme and a non-empty netloc |
| `Scrape.AbsolutePathJoinNeverRootRelative` | src/url_collector.py:75-76 | the join the model defines meets the assumption of `StoredLinksAreAbsolute`: no joined root-relative href starts with `/` |
| `Scrape.SkippedHrefAddsNothing` | src/url_collector.py:79-80 | an href starting with neither `/` nor `http` leaves the links set as it was |
| `Scrape.HttpHrefTakenVerbatim` | src/url_collector.py:77-78 | an href starting with `http`, `httpfoo` included, becomes the full URL unchanged, whatever `urljoin` would do |
| `Scrape.NothingKeptGivesEmpty` | src/url_collector.py:71-91 | a failed fetch, or a page none of whose hrefs is kept, gives the empty set |
| `Scrape.RootRelativeKeptIffUkBase` | src/url_collector.py:75-85 | with RFC 3986 absolute-path joining, a root-relative href is kept exactly when the directory URL is a UK URL |
| `Ordering.Less` | src/url_collector.py:140 | Python's `<` on `str`: the first differing code point decides, and a proper prefix comes first |
| `Ordering.LessIrreflexive` | src/url_collector.py:140 | no string is below itself in Python's string order |
| `Ordering.LessTransitive` | src/url_collector.py:140 | Python's string order is transitive |
| `Ordering.LessTotal` | src/url_collector.py:140 | of two different strings one is below the other |
| `Ordering.LeastExists` | src/url_collector.py:140 | every non-empty set of strings has a least element |
| `Ordering.Sorted` | src/url_collector.py:140 | `sorted` of a set lists each element exactly once, in strictly ascending order |
| `Ordering.SortedIsUnique` | src/url_collector.py:140 | two strictly ascending lists with the same elements are equal, so the row order is fully determined |
| `Collector.Header` | src/url_collector.py:138 | the header row `url`, `domain` |
| `Collector.Seeds` | src/url_collector.py:21-35 | the 13 directory URLs, in the order the class lists them |
| `Collector.UnionAllMembers` | src/url_collector.py:122-132 | a URL is in the union of the per-directory sets exactly when one of them holds it |
| `Collector.EachResultContributes` | src/url_collector.py:122-126 | each directory's links reach the final set whatever the other directories did |
| `Collector.UnionInOrderMembers` | src/url_collector.py:128-132 | merging in a given order gathers exactly the URLs of the merged sets |
| `Collector.LockOrderIrrelevant` | src/url_collector.py:128-132 | whatever order the workers take the lock in, the merged set is the union of the per-directory sets |
| `Collector.UkUrlCollector.constructor` | src/url_collector.py:12-35 | a new collector holds the 13 seed directories and an empty set, which satisfies the set's invariant |
| `Collector.UkUrlCollector.Merge` | src/url_collector.py:124-125 | the set becomes the old set plus the new URLs; it only grows; re-adding present URLs changes nothing |
| `Collector.UkUrlCollector.DirectoryWorker` | src/url_collector.py:122-126 | the seed's scrape result is merged in and its size returned, and the invariant is kept |
| `Collector.UkUrlCollector.CollectFromDirectories` | src/url_collector.py:120-132 | after all workers the set is the old set plus the union of every seed's result, for any lock order; each count is that seed's result size |
| `Collector.UkUrlCollector.SaveResults` | src/url_collector.py:134-142 | the rows are the header and then one row per collected URL in strictly ascending order, each with its netloc; writing fails only on a URL urlparse rejects, which a valid collector never holds |

## Left out

- Fetching: `requests.get`, its timeout and the random User-Agent choice are network I/O and randomness. A `Page` value stands in for their result.
- HTML parsing: BeautifulSoup is a foreign library. The model takes the sequence of `href` values that `find_all('a', href=True)` would yield.
- `urljoin` in general is a parameter. Only its absolute-path case is defined (`UrlJoin.JoinAbsolutePath`), and only for an `http` or `https` base that urlparse accepts (`UrlJoin.HasAuthority`; on a base with an unbalanced bracket `urljoin` raises, which the `join` parameter expresses as `None`), which is what every seed directory is. For a base whose scheme is not in `urllib.parse.uses_relative`, `urljoin` returns the reference unchanged; that case is not defined. The definition also leaves out the removal of dot segments (section 5.2.4 of RFC 3986), and the dropping of an empty `;` parameter, an empty query or an empty fragment when the URL is recomposed. Nor does it model how `urljoin` first cleans the reference: it removes tab, CR and LF and strips leading C0 control characters and spaces, so for `/a<TAB>b` the result ends in `/ab` and not in the reference.
- `Scrape.IsStored`: the invariant of the collected set does not say that a URL is absolute, because a root-relative href's full URL is whatever the `join` parameter returns. `Scrape.StoredLinksAreAbsolute` proves absoluteness when no joined root-relative href starts with `/`.
- `Urls.Authority` and `Urls.ParseNetloc` approximate `urlparse`. They leave out the stripping of leading control characters and spaces, the removal of tab, CR and LF, the validation of a bracketed IPv6 host, and the NFKC check on non-ASCII netlocs. These are details of the Python version; the unbalanced-bracket error is modelled.
- `Urls.LowerChar` lowers ASCII capitals and the Kelvin sign only. These are the only characters besides `.`, `u` and `k` themselves whose lower-case form is one of those three, so whether `.uk` occurs is decided as `str.lower()` decides it. Other characters keep their case.
- The thread pool, the lock and `as_completed` are concurrency plumbing. The model merges sequentially in a given order of taking the lock, and reports each worker's count in that same order, although `as_completed` may hand the futures back in another order. The progress messages and the running total are print output.
- `google_search` and `collect_from_google` use the `googlesearch` dependency. `run` disables that path, and it calls a `fallback_search` method that does not exist.
- The CSV file itself and the `print` messages are left out; `SaveResults` returns the rows it would write. When urlparse raises part-way, the rows written before the failure are not specified.
- `run` and its `target` argument: `run` only calls the two methods above, and the code never checks `target`.
- `user_agents` and `lock` fields: they serve only the left-out fetch and locking.
