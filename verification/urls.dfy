/**
  The two things the rewriter derives from a URL: the dedup key (the URL cut
  at its first `#`, which drops the fragment of section 3.5 of RFC 3986) and
  the host used as a domain-group key (`urlparse(url).netloc`).
 */
module Urls {
  import opened Text

  /** `url.split('#')[0]`: the longest prefix of `u` that holds no `#`. */
  function Canon(u: string): (c: string)
    ensures c <= u
    ensures '#' !in c
    ensures |c| < |u| ==> u[|c|] == '#'
  {
    u[..FindFrom(u, '#', 0)]
  }

  /** The fragment is dropped: a URL and any fragment-extended form share one key. */
  lemma CanonDropsFragment(base: string, fragment: string)
    requires '#' !in base
    ensures Canon(base) == base
    ensures Canon(base + "#" + fragment) == base
  {
    var u := base + "#" + fragment;
    assert forall k :: 0 <= k < |base| ==> u[k] == base[k];
    assert u[|base|] == '#';
  }

  /** Cutting twice is cutting once. */
  lemma CanonIdempotent(u: string)
    ensures Canon(Canon(u)) == Canon(u)
  {
  }

  /** Characters a URL scheme may contain (`urllib.parse.scheme_chars`). */
  predicate IsSchemeChar(c: char) {
    IsAsciiLetter(c) || IsDigit(c) || c == '+' || c == '-' || c == '.'
  }

  predicate IsSchemeName(s: string) {
    |s| > 0 && IsAsciiLetter(s[0]) && forall k :: 0 <= k < |s| ==> IsSchemeChar(s[k])
  }

  /** The characters that end the network location in `urlsplit`. */
  predicate IsNetlocDelimiter(c: char) {
    c == '/' || c == '?' || c == '#'
  }

  predicate IsNetlocChar(c: char) {
    !IsNetlocDelimiter(c)
  }

  /**
    What `urlsplit` leaves after removing a scheme: the text before the first
    `:` is a scheme when it is non-empty, starts with an ASCII letter and uses
    only scheme characters.
   */
  function AfterScheme(u: string): string {
    var i := FindFrom(u, ':', 0);
    if 0 < i < |u| && IsSchemeName(u[..i]) then u[i + 1..] else u
  }

  /**
    `urlparse(u).netloc`, simplified: after an optional scheme, the text that
    follows `//` up to the first `/`, `?` or `#`; empty when there is no `//`.
   */
  function Host(u: string): (h: string)
    ensures forall k :: 0 <= k < |h| ==> !IsNetlocDelimiter(h[k])
  {
    var rest := AfterScheme(u);
    if |rest| >= 2 && rest[..2] == "//" then
      rest[2..RunEnd(rest, 2, IsNetlocChar)]
    else
      ""
  }

  /** The host of `scheme://host<path>` is `host`, whatever the path. */
  lemma HostOfAuthority(scheme: string, host: string, path: string)
    requires IsSchemeName(scheme)
    requires forall k :: 0 <= k < |host| ==> !IsNetlocDelimiter(host[k])
    requires path == [] || IsNetlocDelimiter(path[0])
    ensures Host(scheme + "://" + host + path) == host
  {
    var u := scheme + "://" + host + path;
    assert forall k :: 0 <= k < |scheme| ==> u[k] == scheme[k];
    assert u[|scheme|] == ':';
    assert u[..|scheme|] == scheme;
    var rest := AfterScheme(u);
    assert rest == "//" + host + path;
    assert forall k :: 2 <= k < 2 + |host| ==> rest[k] == host[k - 2];
    assert path != [] ==> rest[2 + |host|] == path[0];
    assert rest[2..2 + |host|] == host;
  }

  /** Without an authority (`//` after the scheme) the host is empty. */
  lemma HostWithoutAuthority(scheme: string, rest: string)
    requires IsSchemeName(scheme)
    requires !(|rest| >= 2 && rest[..2] == "//")
    ensures Host(scheme + ":" + rest) == ""
  {
    var u := scheme + ":" + rest;
    assert forall k :: 0 <= k < |scheme| ==> u[k] == scheme[k];
    assert u[|scheme|] == ':';
    assert u[..|scheme|] == scheme;
    assert AfterScheme(u) == rest;
  }
}
