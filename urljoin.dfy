/** The one case of urljoin(url, href) that the collector's root-relative
    links exercise: an absolute-path reference ("/path", not "//host"), which
    section 5.2.2 of RFC 3986 resolves by keeping the base's scheme and
    authority and taking the reference's path, query and fragment. Python
    lower-cases the scheme when it recomposes the URL. */
module UrlJoin {
  import opened Wrappers
  import opened Urls

  /** The schemes for which the model defines the join. urljoin resolves a
      reference only against a base whose scheme is in
      urllib.parse.uses_relative; every seed directory uses https. */
  const JoinSchemes: set<string> := {"http", "https"}

  /** The base has a scheme urljoin resolves against and an authority to
      keep, and urlparse accepts it (urljoin parses the base first, and so
      raises where urlparse does). */
  predicate HasAuthority(base: string) {
    && ParseNetloc(base).Some?
    && SchemeEnd(base).Some?
    && Lower(base[..SchemeEnd(base).value]) in JoinSchemes
    && StartsWith(AfterScheme(base), "//")
  }

  /** An absolute-path reference: starts with '/' but not with "//". */
  predicate IsAbsolutePath(ref: string) {
    StartsWith(ref, "/") && !StartsWith(ref, "//")
  }

  /** urljoin(base, ref) for an absolute-path ref, without the removal of
      dot segments (section 5.2.4 of RFC 3986). */
  function JoinAbsolutePath(base: string, ref: string): (r: string)
    requires HasAuthority(base) && IsAbsolutePath(ref)
    ensures EndsWith(r, ref)
  {
    var scheme := base[..SchemeEnd(base).value];
    var r := Lower(scheme) + "://" + Authority(base) + ref;
    assert r[|r| - |ref|..] == ref;
    r
  }

  /** The joined URL keeps the base's scheme, lower-cased, so it is not a
      root-relative or scheme-relative reference. */
  lemma JoinKeepsScheme(base: string, ref: string)
    requires HasAuthority(base) && IsAbsolutePath(ref)
    ensures var r := JoinAbsolutePath(base, ref);
      && SchemeEnd(r).Some?
      && r[..SchemeEnd(r).value] == Lower(base[..SchemeEnd(base).value])
      && !StartsWith(r, "/")
  {
    var scheme := base[..SchemeEnd(base).value];
    var rest := "://" + Authority(base) + ref;
    assert JoinAbsolutePath(base, ref) == Lower(scheme) + rest;
    LowerKeepsScheme(scheme);
    ComposedKeepsScheme(Lower(scheme), rest);
  }

  /** Lower-casing keeps a scheme a scheme. */
  lemma LowerKeepsScheme(scheme: string)
    requires IsScheme(scheme)
    ensures IsScheme(Lower(scheme))
  {
  }

  /** A root-relative link lands on the base's own netloc. */
  lemma JoinKeepsAuthority(base: string, ref: string)
    requires HasAuthority(base) && IsAbsolutePath(ref)
    ensures Authority(JoinAbsolutePath(base, ref)) == Authority(base)
    ensures ParseNetloc(JoinAbsolutePath(base, ref)) == ParseNetloc(base)
  {
    var scheme := base[..SchemeEnd(base).value];
    assert IsScheme(scheme);
    LowerKeepsScheme(scheme);
    AuthorityHasNoDelimiter(base);
    AuthorityOfComposed(Lower(scheme), Authority(base), ref);
  }

  /** So a root-relative link is a UK URL exactly when the page it was found
      on is: every root-relative link of a seed outside .uk is dropped. */
  lemma JoinFollowsBase(base: string, ref: string)
    requires HasAuthority(base) && IsAbsolutePath(ref)
    ensures IsUkDomain(JoinAbsolutePath(base, ref)) == IsUkDomain(base)
  {
    JoinKeepsAuthority(base, ref);
  }
}
