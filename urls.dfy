/** The host test and the URL clean-up of src/url_collector.py.

    The network location (netloc) is extracted the way Python's
    urllib.parse.urlparse does it, simplified: an optional scheme is split off
    at the first ':', and when the remainder starts with "//" the authority
    (section 3.2 of RFC 3986) runs up to the first '/', '?' or '#'. A netloc
    with an unbalanced '[' or ']' makes urlparse raise ValueError; that is the
    failure path that is_uk_domain turns into False. */
module Urls {
  import opened Wrappers

  /** Python's s.startswith(p). */
  predicate StartsWith(s: string, p: string) {
    |p| <= |s| && s[..|p|] == p
  }

  /** Python's s.endswith(p). */
  predicate EndsWith(s: string, p: string) {
    |p| <= |s| && s[|s| - |p|..] == p
  }

  /** Python's `t in s` on strings: t occurs in s at some position. */
  predicate Contains(s: string, t: string)
    decreases |s|
  {
    StartsWith(s, t) || (s != [] && Contains(s[1..], t))
  }

  /** An occurrence of t at position i is enough for Contains. */
  lemma {:induction false} ContainsAt(s: string, t: string, i: nat)
    requires i <= |s| && StartsWith(s[i..], t)
    ensures Contains(s, t)
    decreases i
  {
    if i > 0 {
      assert s[1..][i - 1..] == s[i..];
      ContainsAt(s[1..], t, i - 1);
    }
  }

  /** Every occurrence found by Contains is at some position of s. */
  lemma {:induction false} ContainsWitness(s: string, t: string) returns (i: nat)
    requires Contains(s, t)
    ensures i <= |s| - |t| && StartsWith(s[i..], t)
    decreases |s|
  {
    if StartsWith(s, t) {
      i := 0;
    } else {
      var j := ContainsWitness(s[1..], t);
      assert s[1..][j..] == s[j + 1..];
      i := j + 1;
    }
  }

  /** Position of the first character of s that belongs to cs, or |s| when
      there is none (Python's str.find, with -1 read as |s|). */
  function IndexOfAny(s: string, cs: set<char>): (k: nat)
    ensures k <= |s|
  {
    if s == [] then 0
    else if s[0] in cs then 0
    else 1 + IndexOfAny(s[1..], cs)
  }

  /** IndexOfAny finds the first such character: none comes before it. */
  lemma {:induction false} IndexOfAnyIsFirst(s: string, cs: set<char>)
    ensures forall j :: 0 <= j < IndexOfAny(s, cs) ==> s[j] !in cs
    ensures IndexOfAny(s, cs) < |s| ==> s[IndexOfAny(s, cs)] in cs
  {
    if s != [] && s[0] !in cs {
      IndexOfAnyIsFirst(s[1..], cs);
      assert forall j :: 1 <= j < |s| ==> s[j] == s[1..][j - 1];
    }
  }

  /** The first delimiter of a prefix of s is the first delimiter of s, unless
      that one lies beyond the prefix. */
  lemma IndexOfAnyPrefix(s: string, n: nat, cs: set<char>)
    requires n <= |s|
    ensures IndexOfAny(s[..n], cs) == if IndexOfAny(s, cs) < n then IndexOfAny(s, cs) else n
  {
    var a, b := IndexOfAny(s[..n], cs), IndexOfAny(s, cs);
    IndexOfAnyIsFirst(s[..n], cs);
    IndexOfAnyIsFirst(s, cs);
    if b < n {
      assert s[..n][b] in cs;
    }
  }

  /** The first delimiter of a + b, when a holds none and b starts with one. */
  lemma IndexOfAnyAfterClear(a: string, b: string, cs: set<char>)
    requires forall j :: 0 <= j < |a| ==> a[j] !in cs
    requires b != [] && b[0] in cs
    ensures IndexOfAny(a + b, cs) == |a|
  {
    var k := IndexOfAny(a + b, cs);
    IndexOfAnyIsFirst(a + b, cs);
    assert (a + b)[|a|] in cs;
  }

  /** The text before the first sep (Python's s.split(sep)[0]). */
  function BeforeFirst(s: string, sep: char): (r: string)
    ensures StartsWith(s, r) && sep !in r
    ensures |r| < |s| ==> s[|r|] == sep
  {
    IndexOfAnyIsFirst(s, {sep});
    s[..IndexOfAny(s, {sep})]
  }

  /** The URL as the collector stores it: full_url.split('?')[0].split('#')[0]. */
  function Clean(url: string): (r: string)
    ensures '?' !in r && '#' !in r
    ensures StartsWith(url, r)
  {
    BeforeFirst(BeforeFirst(url, '?'), '#')
  }

  /** Reference definition of Clean: the URL cut at its first '?' or '#',
      whichever comes first. */
  lemma CleanCutsAtFirstDelimiter(url: string)
    ensures Clean(url) == url[..IndexOfAny(url, {'?', '#'})]
  {
    var a := BeforeFirst(url, '?');
    var b := BeforeFirst(a, '#');
    var k := IndexOfAny(url, {'?', '#'});
    IndexOfAnyIsFirst(url, {'?', '#'});
    assert a == url[..|a|] && b == a[..|b|];
    assert forall j :: 0 <= j < |b| ==> url[j] == b[j];
    if |b| < |a| {
      assert url[|b|] == a[|b|] == '#';
    }
    assert |b| < |url| ==> url[|b|] in {'?', '#'};
    assert k == |b|;
  }

  /** Cleaning a cleaned URL changes nothing. */
  lemma CleanIdempotent(url: string)
    ensures Clean(Clean(url)) == Clean(url)
  {
    var r := Clean(url);
    CleanCutsAtFirstDelimiter(r);
    IndexOfAnyIsFirst(r, {'?', '#'});
    assert IndexOfAny(r, {'?', '#'}) == |r|;
  }

  /** Python's str.lower() as far as '.', 'u' and 'k' are concerned: ASCII
      capitals and the Kelvin sign U+212A (which lowers to 'k') are the only
      characters other than those three whose lower-case form is one of them.
      Every other character is kept as it is, which does not change whether
      ".uk" occurs in the result. */
  function LowerChar(c: char): char {
    if 'A' <= c <= 'Z' then (c as int + 32) as char
    else if c == '\U{212A}' then 'k'
    else c
  }

  function Lower(s: string): (r: string)
    ensures |r| == |s|
    ensures forall i :: 0 <= i < |s| ==> r[i] == LowerChar(s[i])
  {
    seq(|s|, i requires 0 <= i < |s| => LowerChar(s[i]))
  }

  /** ".uk" in any letter case at position i of s: a '.', a 'u' or 'U', and
      a 'k', 'K' or Kelvin sign. */
  predicate UkAt(s: string, i: nat) {
    && i + 3 <= |s|
    && s[i] == '.'
    && (s[i + 1] == 'u' || s[i + 1] == 'U')
    && (s[i + 2] == 'k' || s[i + 2] == 'K' || s[i + 2] == '\U{212A}')
  }

  /** The characters that lower to '.', 'u' and 'k'. */
  lemma LowerCharToUk(c: char)
    ensures LowerChar(c) == '.' <==> c == '.'
    ensures LowerChar(c) == 'u' <==> c == 'u' || c == 'U'
    ensures LowerChar(c) == 'k' <==> c == 'k' || c == 'K' || c == '\U{212A}'
  {
  }

  /** What lowering does to the test: the lowered string contains ".uk"
      exactly when the string itself holds ".uk" in some letter case. */
  lemma LowerContainsUkIff(s: string)
    ensures Contains(Lower(s), ".uk") <==> exists i: nat :: UkAt(s, i)
  {
    var d := Lower(s);
    if Contains(d, ".uk") {
      var i := ContainsWitness(d, ".uk");
      assert d[i..][..3] == ".uk";
      assert d[i] == '.' && d[i + 1] == 'u' && d[i + 2] == 'k';
      LowerCharToUk(s[i]);
      LowerCharToUk(s[i + 1]);
      LowerCharToUk(s[i + 2]);
      assert UkAt(s, i);
    }
    if exists i: nat :: UkAt(s, i) {
      var i: nat :| UkAt(s, i);
      LowerCharToUk(s[i]);
      LowerCharToUk(s[i + 1]);
      LowerCharToUk(s[i + 2]);
      assert d[i..][..3] == ".uk";
      ContainsAt(d, ".uk", i);
    }
  }

  predicate IsAsciiLetter(c: char) {
    'a' <= c <= 'z' || 'A' <= c <= 'Z'
  }

  /** urllib.parse's scheme_chars: letters, digits, '+', '-' and '.'. */
  predicate IsSchemeChar(c: char) {
    IsAsciiLetter(c) || '0' <= c <= '9' || c == '+' || c == '-' || c == '.'
  }

  /** A valid scheme: an ASCII letter followed by scheme characters. */
  predicate IsScheme(scheme: string) {
    scheme != [] && IsAsciiLetter(scheme[0]) &&
    forall j :: 0 <= j < |scheme| ==> IsSchemeChar(scheme[j])
  }

  /** Where the scheme ends: the first ':', provided it is preceded by a
      non-empty run of scheme characters that starts with an ASCII letter. */
  function SchemeEnd(url: string): (r: Option<nat>)
    ensures r.Some? ==> 0 < r.value < |url|
  {
    var i := IndexOfAny(url, {':'});
    if i < |url| && IsScheme(url[..i]) then Some(i)
    else None
  }

  /** What urlparse goes on to read once the scheme is split off. */
  function AfterScheme(url: string): string {
    match SchemeEnd(url)
    case Some(i) => url[i + 1..]
    case None => url
  }

  const NetlocDelimiters: set<char> := {'/', '?', '#'}

  /** The netloc in the remainder: after a leading "//", up to the first '/',
      '?' or '#'; empty when the remainder does not start with "//". */
  function NetlocOf(rest: string): string {
    if StartsWith(rest, "//") then
      var t := rest[2..];
      t[..IndexOfAny(t, NetlocDelimiters)]
    else ""
  }

  /** urlparse(url).netloc, before the bracket check. */
  function Authority(url: string): string {
    NetlocOf(AfterScheme(url))
  }

  /** The netloc holds no '/', '?' or '#'. */
  lemma AuthorityHasNoDelimiter(url: string)
    ensures forall j :: 0 <= j < |Authority(url)| ==> Authority(url)[j] !in NetlocDelimiters
  {
    var rest := AfterScheme(url);
    if StartsWith(rest, "//") {
      IndexOfAnyIsFirst(rest[2..], NetlocDelimiters);
    }
  }

  /** A non-empty netloc comes right after a "//" of the URL. */
  lemma AuthorityFollowsSlashes(url: string)
    ensures Authority(url) == [] || Contains(url, "//" + Authority(url))
  {
    var rest := AfterScheme(url);
    var n := NetlocOf(rest);
    if n != [] {
      var start := |url| - |rest|;
      assert url[start..] == rest;
      assert rest[..2 + |n|] == "//" + n;
      ContainsAt(url, "//" + n, start);
    }
  }

  /** urlparse(url).netloc, or None where urlparse raises ValueError
      ("Invalid IPv6 URL") because the netloc holds only one of '[' and ']'. */
  function ParseNetloc(url: string): Option<string> {
    var n := Authority(url);
    if ('[' in n) != (']' in n) then None else Some(n)
  }

  /** is_uk_domain: the lower-cased netloc contains ".uk" or ".co.uk"; a URL
      urlparse rejects is not a UK domain. */
  predicate IsUkDomain(url: string) {
    match ParseNetloc(url)
    case None => false
    case Some(netloc) =>
      var domain := Lower(netloc);
      Contains(domain, ".uk") || Contains(domain, ".co.uk")
  }

  /** ".co.uk" contains ".uk", so any string containing the first contains
      the second. */
  lemma {:induction false} CoUkContainsUk(s: string)
    requires Contains(s, ".co.uk")
    ensures Contains(s, ".uk")
    decreases |s|
  {
    if StartsWith(s, ".co.uk") {
      assert s[3..][..3] == ".uk";
      ContainsAt(s, ".uk", 3);
    } else {
      CoUkContainsUk(s[1..]);
    }
  }

  /** is_uk_domain never fails, and holds exactly when urlparse succeeds and
      the lower-cased netloc contains ".uk": the ".co.uk" test adds nothing. */
  lemma IsUkDomainIff(url: string)
    ensures IsUkDomain(url) <==>
      ParseNetloc(url).Some? && Contains(Lower(ParseNetloc(url).value), ".uk")
  {
    if ParseNetloc(url).Some? && Contains(Lower(ParseNetloc(url).value), ".co.uk") {
      CoUkContainsUk(Lower(ParseNetloc(url).value));
    }
  }

  /** is_uk_domain is case-insensitive: it holds exactly when urlparse
      succeeds and the netloc holds ".uk" in some letter case. */
  lemma IsUkDomainAnyCase(url: string)
    ensures IsUkDomain(url) <==>
      ParseNetloc(url).Some? && exists i: nat :: UkAt(ParseNetloc(url).value, i)
  {
    IsUkDomainIff(url);
    if ParseNetloc(url).Some? {
      LowerContainsUkIff(ParseNetloc(url).value);
    }
  }

  /** A host that ends in ".uk" (in any letter case) passes; an empty netloc,
      as in a URL without "//", does not. */
  lemma UkSuffixAccepted(url: string)
    ensures ParseNetloc(url).Some? && EndsWith(Lower(ParseNetloc(url).value), ".uk") ==> IsUkDomain(url)
    ensures Authority(url) == [] ==> !IsUkDomain(url)
  {
    if ParseNetloc(url).Some? {
      var d := Lower(ParseNetloc(url).value);
      if EndsWith(d, ".uk") {
        assert d[|d| - 3..][..3] == ".uk";
        ContainsAt(d, ".uk", |d| - 3);
      }
    }
  }

  /** A URL that passes and does not start with '/' is absolute: it has a
      scheme and a non-empty netloc. */
  lemma UkUrlIsAbsolute(url: string)
    requires IsUkDomain(url) && !StartsWith(url, "/")
    ensures SchemeEnd(url).Some? && Authority(url) != []
  {
    IsUkDomainIff(url);
    var d := Lower(ParseNetloc(url).value);
    var i := ContainsWitness(d, ".uk");
    assert Authority(url) != [];
  }

  /** A URL without "//" anywhere has an empty netloc. */
  lemma NoSlashesNoNetloc(url: string)
    ensures !Contains(url, "//") ==> Authority(url) == []
  {
    var n := Authority(url);
    AuthorityFollowsSlashes(url);
    if n != [] {
      var i := ContainsWitness(url, "//" + n);
      assert url[i..][..|"//" + n|] == "//" + n;
      assert url[i..][..2] == ("//" + n)[..2] == "//";
      ContainsAt(url, "//", i);
    }
  }

  /** The scheme of scheme ":" rest ends at that ':'. */
  lemma SchemeEndOfComposed(scheme: string, rest: string)
    requires IsScheme(scheme) && rest != [] && rest[0] == ':'
    ensures SchemeEnd(scheme + rest) == Some(|scheme|)
    ensures AfterScheme(scheme + rest) == rest[1..]
    ensures (scheme + rest)[..|scheme|] == scheme
    ensures !StartsWith(scheme + rest, "/")
  {
    var url := scheme + rest;
    assert url[0] == scheme[0];
    assert forall j :: 0 <= j < |scheme| ==> scheme[j] != ':';
    IndexOfAnyAfterClear(scheme, rest, {':'});
    assert url[..|scheme|] == scheme;
    assert url[|scheme| + 1..] == rest[1..];
  }

  /** scheme ":" rest has scheme as its scheme, and so does not start with
      '/'. */
  lemma ComposedKeepsScheme(scheme: string, rest: string)
    requires IsScheme(scheme) && rest != [] && rest[0] == ':'
    ensures var url := scheme + rest;
      && SchemeEnd(url).Some?
      && url[..SchemeEnd(url).value] == scheme
      && !StartsWith(url, "/")
  {
    SchemeEndOfComposed(scheme, rest);
  }

  /** The netloc after "//" host tail is host, when host holds no delimiter
      and tail is empty or starts with one. */
  lemma NetlocOfComposed(host: string, tail: string)
    requires forall j :: 0 <= j < |host| ==> host[j] !in NetlocDelimiters
    requires tail == [] || tail[0] in NetlocDelimiters
    ensures NetlocOf("//" + host + tail) == host
  {
    var t := host + tail;
    assert ("//" + host + tail)[2..] == t;
    if tail == [] {
      assert t == host;
      IndexOfAnyIsFirst(t, NetlocDelimiters);
    } else {
      IndexOfAnyAfterClear(host, tail, NetlocDelimiters);
    }
    assert t[..|host|] == host;
  }

  /** The netloc of scheme "://" host tail is host, when host holds no '/',
      '?' or '#' and tail is empty or starts with one of them. */
  lemma AuthorityOfComposed(scheme: string, host: string, tail: string)
    requires IsScheme(scheme)
    requires forall j :: 0 <= j < |host| ==> host[j] !in NetlocDelimiters
    requires tail == [] || tail[0] in NetlocDelimiters
    ensures Authority(scheme + "://" + host + tail) == host
  {
    var rest := "://" + host + tail;
    assert scheme + "://" + host + tail == scheme + rest;
    SchemeEndOfComposed(scheme, rest);
    assert rest[1..] == "//" + host + tail;
    NetlocOfComposed(host, tail);
  }

  /** The test is on containment, not on the host's suffix: a host that merely
      has ".uk" inside it, such as www.ukraine.com, passes. */
  lemma ContainmentNotSuffix(url: string)
    requires url == "https://www.ukraine.com"
    ensures IsUkDomain(url)
    ensures !EndsWith(Authority(url), ".uk")
  {
    var scheme, host := url[..5], url[8..];
    assert url == scheme + url[5..8] + host + [];
    assert url[5] == ':' && url[6] == '/' && url[7] == '/';
    assert url[5..8] == "://";
    UkraineHost(host);
    HttpsIsScheme(scheme);
    AuthorityOfComposed(scheme, host, "");
    assert ParseNetloc(url) == Some(host);
  }

  /** The test reads the whole netloc, user information and port included:
      a URL on example.com whose user name is "a.uk" passes. */
  lemma UserInfoCounts(user: string, host: string, url: string)
    requires user == "a.uk" && host == "example.com"
    requires url == "https://" + user + "@" + host + "/"
    ensures IsUkDomain(url)
    ensures Authority(url) == user + "@" + host
  {
    var netloc := user + "@" + host;
    assert url == "https" + "://" + netloc + "/";
    UserInfoNetloc(user, host);
    HttpsIsScheme("https");
    AuthorityOfComposed("https", netloc, "/");
    assert ParseNetloc(url) == Some(netloc);
    IsUkDomainAnyCase(url);
  }

  lemma UserInfoNetloc(user: string, host: string)
    requires user == "a.uk" && host == "example.com"
    ensures var netloc := user + "@" + host;
      && (forall j :: 0 <= j < |netloc| ==> netloc[j] !in NetlocDelimiters)
      && '[' !in netloc && ']' !in netloc
      && UkAt(netloc, 1)
  {
    var netloc := user + "@" + host;
    UserInfoParts(user, host);
    assert netloc[1..4] == user[1..4];
  }

  lemma UserInfoParts(user: string, host: string)
    requires user == "a.uk" && host == "example.com"
    ensures forall j :: 0 <= j < |user| ==> user[j] !in NetlocDelimiters && user[j] != '[' && user[j] != ']'
    ensures forall j :: 0 <= j < |host| ==> host[j] !in NetlocDelimiters && host[j] != '[' && host[j] != ']'
    ensures UkAt(user, 1)
  {
  }

  lemma HttpsIsScheme(scheme: string)
    requires scheme == "https"
    ensures IsScheme(scheme)
  {
    assert forall j :: 0 <= j < |scheme| ==> IsAsciiLetter(scheme[j]);
  }

  lemma UkraineHost(host: string)
    requires host == "www.ukraine.com"
    ensures '[' !in host && ']' !in host
    ensures forall j :: 0 <= j < |host| ==> host[j] !in NetlocDelimiters
    ensures Contains(Lower(host), ".uk") && !EndsWith(host, ".uk")
  {
    var d := Lower(host);
    assert d[3] == LowerChar(host[3]) == '.';
    assert d[4] == LowerChar(host[4]) == 'u';
    assert d[5] == LowerChar(host[5]) == 'k';
    assert d[3..][..3] == ".uk";
    ContainsAt(d, ".uk", 3);
  }

  /** Cutting a URL at a '?' or '#' keeps its scheme and netloc, and so its
      verdict. */
  lemma CleanKeepsNetloc(url: string)
    ensures Authority(Clean(url)) == Authority(url)
    ensures ParseNetloc(Clean(url)) == ParseNetloc(url)
    ensures IsUkDomain(Clean(url)) == IsUkDomain(url)
    ensures SchemeEnd(Clean(url)) == SchemeEnd(url)
  {
    CleanCutsAtFirstDelimiter(url);
    var k := IndexOfAny(url, {'?', '#'});
    if k < |url| {
      CutKeepsAuthority(url, k);
      CutKeepsSchemeEnd(url, k);
    } else {
      assert Clean(url) == url;
    }
  }

  /** A stored form of a passing URL that does not start with '/' is
      absolute too. */
  lemma CleanOfUkUrlIsAbsolute(url: string)
    requires IsUkDomain(url) && !StartsWith(url, "/")
    ensures SchemeEnd(Clean(url)).Some? && Authority(Clean(url)) != []
  {
    UkUrlIsAbsolute(url);
    CleanKeepsNetloc(url);
  }

  /** The scheme survives a cut at position k, provided url[k] is '?' or '#'
      and no '?' or '#' comes before it. */
  lemma CutKeepsSchemeEnd(url: string, k: nat)
    requires k < |url| && (url[k] == '?' || url[k] == '#')
    ensures SchemeEnd(url[..k]) == SchemeEnd(url)
  {
    var p := url[..k];
    IndexOfAnyPrefix(url, k, {':'});
    var c := IndexOfAny(url, {':'});
    IndexOfAnyIsFirst(url, {':'});
    if c < k {
      assert p[..c] == url[..c];
    } else {
      assert !IsSchemeChar(url[k]);
    }
  }

  /** The netloc survives a cut at position k, provided url[k] is '?' or '#'
      and no '?' or '#' comes before it. */
  lemma CutKeepsAuthority(url: string, k: nat)
    requires k < |url| && (url[k] == '?' || url[k] == '#')
    requires forall j :: 0 <= j < k ==> url[j] != '?' && url[j] != '#'
    ensures Authority(url[..k]) == Authority(url)
  {
    var p := url[..k];
    CutKeepsSchemeEnd(url, k);
    var off := match SchemeEnd(url) case Some(i) => i + 1 case None => 0;
    assert off <= k by {
      if SchemeEnd(url).Some? {
        IndexOfAnyIsFirst(url, {':'});
      }
    }
    var restU, restP := url[off..], p[off..];
    assert AfterScheme(url) == restU && AfterScheme(p) == restP;
    var m := k - off;
    assert restP == restU[..m] && restU[m] == url[k];
    assert forall j :: 0 <= j < m ==> restU[j] == url[off + j];
    CutKeepsNetloc(restU, m);
  }

  /** NetlocOf survives a cut of the remainder at its first '?' or '#'. */
  lemma CutKeepsNetloc(rest: string, m: nat)
    requires m < |rest| && (rest[m] == '?' || rest[m] == '#')
    requires forall j :: 0 <= j < m ==> rest[j] != '?' && rest[j] != '#'
    ensures NetlocOf(rest[..m]) == NetlocOf(rest)
  {
    var p := rest[..m];
    if m < 2 {
      assert !StartsWith(rest, "//");
    } else {
      assert p[..2] == rest[..2];
      if StartsWith(rest, "//") {
        var t := rest[2..];
        assert p[2..] == t[..m - 2];
        assert t[m - 2] in NetlocDelimiters;
        IndexOfAnyIsFirst(t, NetlocDelimiters);
        IndexOfAnyPrefix(t, m - 2, NetlocDelimiters);
        var d := IndexOfAny(t, NetlocDelimiters);
        assert t[..m - 2][..d] == t[..d];
      }
    }
  }
}
