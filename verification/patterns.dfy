/**
  The three regular expressions of rag_optimizer.py, each as a matcher that
  answers: does the pattern match at position `p` of `s`, and if so, where
  does the match end and what are its groups?  A match found by Python's
  backtracking engine is unique at a given start, and these functions
  compute it directly.
 */
module Patterns {
  import opened Wrappers
  import opened Text

  // ------------------------------------------------ `([a-zA-Z0-9.-]+\.[a-zA-Z]{2,})\[(\d+)\]`

  datatype CitationMatch = CitationMatch(host: string, digits: string, end: nat)

  /** The whole of `h` matches `[a-zA-Z0-9.-]+\.[a-zA-Z]{2,}`. */
  ghost predicate HostLike(h: string) {
    exists k :: 1 <= k && k + 3 <= |h| && h[k] == '.'
      && (forall j :: 0 <= j < k ==> IsHostChar(h[j]))
      && (forall j :: k < j < |h| ==> IsAsciiLetter(h[j]))
  }

  /** Length of the longest suffix of `h` made of ASCII letters. */
  function TrailingLetters(h: string): (t: nat)
    ensures t <= |h|
    ensures forall j :: |h| - t <= j < |h| ==> IsAsciiLetter(h[j])
    ensures t < |h| ==> !IsAsciiLetter(h[|h| - t - 1])
  {
    if h != [] && IsAsciiLetter(h[|h| - 1]) then 1 + TrailingLetters(h[..|h| - 1]) else 0
  }

  /** The top-level segment is the letter suffix, so the dot must sit just before it. */
  predicate IsHostLike(h: string) {
    var t := TrailingLetters(h);
    && t >= 2
    && |h| >= t + 2
    && h[|h| - t - 1] == '.'
    && forall j :: 0 <= j < |h| - t - 1 ==> IsHostChar(h[j])
  }

  /** The computed check decides exactly the pattern. */
  lemma HostLikeIff(h: string)
    ensures IsHostLike(h) <==> HostLike(h)
  {
    var t := TrailingLetters(h);
    if IsHostLike(h) {
      var k := |h| - t - 1;
      assert h[k] == '.';
    }
    if HostLike(h) {
      var k :| 1 <= k && k + 3 <= |h| && h[k] == '.'
        && (forall j :: 0 <= j < k ==> IsHostChar(h[j]))
        && (forall j :: k < j < |h| ==> IsAsciiLetter(h[j]));
      assert !IsAsciiLetter(h[k]);
      assert t == |h| - k - 1;
    }
  }

  lemma HostLikeChars(h: string)
    requires HostLike(h)
    ensures forall j :: 0 <= j < |h| ==> IsHostChar(h[j])
  {
  }

  /**
    The host-like group must run right up to the `[` and `[` is not a host
    character, so the group is the maximal host-character run from `p`; the
    digits must run right up to the `]`.
   */
  function CitationAt(s: string, p: nat): (r: Option<CitationMatch>)
    ensures r.Some? ==>
      && p < r.value.end <= |s|
      && s[p..r.value.end] == r.value.host + "[" + r.value.digits + "]"
      && HostLike(r.value.host)
      && |r.value.digits| > 0 && AllDigits(r.value.digits)
  {
    if p >= |s| then None
    else
      var e := RunEnd(s, p, IsHostChar);
      if IsHostLike(s[p..e]) && e + 1 < |s| && s[e] == '[' then
        var f := RunEnd(s, e + 1, IsDigit);
        if e + 1 < f < |s| && s[f] == ']' then
          HostLikeIff(s[p..e]);
          Some(CitationMatch(s[p..e], s[e + 1..f], f + 1))
        else None
      else None
  }

  /** Where `h[d]` sits at `p`, the host, the brackets and the digits are at their places. */
  lemma CitationPieces(s: string, p: nat, h: string, d: string)
    requires p + |h| + |d| + 2 <= |s|
    requires s[p..p + |h| + |d| + 2] == h + "[" + d + "]"
    ensures s[p..p + |h|] == h && s[p + |h|] == '['
    ensures s[p + |h| + 1..p + |h| + 1 + |d|] == d && s[p + |h| + 1 + |d|] == ']'
  {
    var w := h + "[" + d + "]";
    SliceChars(s, p, w);
    assert forall q :: 0 <= q < |h| ==> s[p + q] == h[q] by {
      forall q | 0 <= q < |h| ensures s[p + q] == h[q] {
        assert w[q] == h[q];
      }
    }
    assert forall q :: 0 <= q < |d| ==> s[p + |h| + 1 + q] == d[q] by {
      forall q | 0 <= q < |d| ensures s[p + |h| + 1 + q] == d[q] {
        assert s[p + (|h| + 1 + q)] == w[|h| + 1 + q] == d[q];
      }
    }
    assert s[p + |h|] == w[|h|];
    assert s[p + (|h| + 1 + |d|)] == w[|h| + 1 + |d|];
    CharsSlice(s, p, h);
    CharsSlice(s, p + |h| + 1, d);
  }

  /** Every occurrence of the pattern at `p` is found. */
  lemma CitationAtComplete(s: string, p: nat, h: string, d: string)
    requires p + |h| + |d| + 2 <= |s|
    requires s[p..p + |h| + |d| + 2] == h + "[" + d + "]"
    requires HostLike(h) && |d| > 0 && AllDigits(d)
    ensures CitationAt(s, p) == Some(CitationMatch(h, d, p + |h| + |d| + 2))
  {
    CitationPieces(s, p, h, d);
    CitationAtFromPieces(s, p, h, d);
  }

  lemma CitationAtFromPieces(s: string, p: nat, h: string, d: string)
    requires p + |h| + |d| + 2 <= |s|
    requires s[p..p + |h|] == h && s[p + |h|] == '['
    requires s[p + |h| + 1..p + |h| + 1 + |d|] == d && s[p + |h| + 1 + |d|] == ']'
    requires HostLike(h) && |d| > 0 && AllDigits(d)
    ensures CitationAt(s, p) == Some(CitationMatch(h, d, p + |h| + |d| + 2))
  {
    RunEndOfHost(s, p, h);
    HostLikeIff(h);
    RunEndOfDigits(s, p + |h| + 1, d);
  }

  lemma RunEndOfHost(s: string, p: nat, h: string)
    requires p + |h| < |s| && s[p..p + |h|] == h && HostLike(h) && s[p + |h|] == '['
    ensures RunEnd(s, p, IsHostChar) == p + |h|
  {
    HostLikeChars(h);
    assert forall j :: p <= j < p + |h| ==> s[j] == h[j - p];
  }

  lemma RunEndOfDigits(s: string, i: nat, d: string)
    requires i + |d| < |s| && s[i..i + |d|] == d && AllDigits(d) && s[i + |d|] == ']'
    ensures RunEnd(s, i, IsDigit) == i + |d|
  {
    assert forall j :: i <= j < i + |d| ==> s[j] == d[j - i];
  }

  // ------------------------------------------------ `\[([^\]]+)\]\(([^)]+)\)`

  datatype LinkMatch = LinkMatch(text: string, url: string, end: nat)

  /**
    The text group cannot hold `]`, so it ends at the first `]`; the URL group
    cannot hold `)`, so it ends at the first `)`. Both must be non-empty.
   */
  function LinkAt(s: string, p: nat): (r: Option<LinkMatch>)
    ensures r.Some? ==>
      && p < r.value.end <= |s|
      && s[p..r.value.end] == "[" + r.value.text + "](" + r.value.url + ")"
      && |r.value.text| > 0 && ']' !in r.value.text
      && |r.value.url| > 0 && ')' !in r.value.url
  {
    if p < |s| && s[p] == '[' then
      var j := FindFrom(s, ']', p + 1);
      if p + 1 < j && j + 1 < |s| && s[j + 1] == '(' then
        var m := FindFrom(s, ')', j + 2);
        if j + 2 < m < |s| then Some(LinkMatch(s[p + 1..j], s[j + 2..m], m + 1)) else None
      else None
    else None
  }

  /** The characters of `[text](url)` by position. */
  lemma LinkText(text: string, url: string)
    ensures var w := "[" + text + "](" + url + ")";
            && |w| == |text| + |url| + 4
            && w[0] == '['
            && (forall k :: 0 <= k < |text| ==> w[1 + k] == text[k])
            && w[1 + |text|] == ']' && w[2 + |text|] == '('
            && (forall k :: 0 <= k < |url| ==> w[3 + |text| + k] == url[k])
            && w[3 + |text| + |url|] == ')'
  {
  }

  /** `FindFrom` stops at the first occurrence. */
  lemma FindFromIs(s: string, c: char, i: nat, j: nat)
    requires i <= j < |s| && s[j] == c
    requires forall k :: i <= k < j ==> s[k] != c
    ensures FindFrom(s, c, i) == j
  {
  }

  /** A text equal to `w` at `p` has `w`'s characters there. */
  lemma SliceChars(s: string, p: nat, w: string)
    requires p + |w| <= |s| && s[p..p + |w|] == w
    ensures forall q :: 0 <= q < |w| ==> s[p + q] == w[q]
  {
    forall q | 0 <= q < |w| ensures s[p + q] == w[q] {
      assert s[p..p + |w|][q] == s[p + q];
    }
  }

  /** A run of characters equal, one by one, to `w` is `w`. */
  lemma CharsSlice(s: string, i: nat, w: string)
    requires i + |w| <= |s| && forall q :: 0 <= q < |w| ==> s[i + q] == w[q]
    ensures s[i..i + |w|] == w
  {
  }

  /** The link pattern matches at `p` once its delimiters are where they must be. */
  lemma LinkAtDelimiters(s: string, p: nat, j: nat, m: nat)
    requires p + 1 < j && j + 2 < m < |s|
    requires s[p] == '[' && s[j] == ']' && s[j + 1] == '(' && s[m] == ')'
    requires forall k :: p + 1 <= k < j ==> s[k] != ']'
    requires forall k :: j + 2 <= k < m ==> s[k] != ')'
    ensures LinkAt(s, p) == Some(LinkMatch(s[p + 1..j], s[j + 2..m], m + 1))
  {
    FindFromIs(s, ']', p + 1, j);
    FindFromIs(s, ')', j + 2, m);
  }

  /** Where `[text](url)` sits at `p`, each character of it is at its place. */
  lemma LinkChars(s: string, p: nat, text: string, url: string)
    requires p + |text| + |url| + 4 <= |s|
    requires s[p..p + |text| + |url| + 4] == "[" + text + "](" + url + ")"
    ensures s[p] == '['
    ensures forall q :: 0 <= q < |text| ==> s[p + 1 + q] == text[q]
    ensures s[p + 1 + |text|] == ']' && s[p + 2 + |text|] == '('
    ensures forall q :: 0 <= q < |url| ==> s[p + 3 + |text| + q] == url[q]
    ensures s[p + 3 + |text| + |url|] == ')'
  {
    var w := "[" + text + "](" + url + ")";
    LinkText(text, url);
    SliceChars(s, p, w);
    forall q | 0 <= q < |text| ensures s[p + 1 + q] == text[q] {
      assert s[p + (1 + q)] == w[1 + q];
    }
    forall q | 0 <= q < |url| ensures s[p + 3 + |text| + q] == url[q] {
      assert s[p + (3 + |text| + q)] == w[3 + |text| + q];
    }
    assert s[p + 0] == w[0];
  }

  lemma LinkAtComplete(s: string, p: nat, text: string, url: string)
    requires |text| > 0 && ']' !in text && |url| > 0 && ')' !in url
    requires p + |text| + |url| + 4 <= |s|
    requires s[p..p + |text| + |url| + 4] == "[" + text + "](" + url + ")"
    ensures LinkAt(s, p) == Some(LinkMatch(text, url, p + |text| + |url| + 4))
  {
    LinkChars(s, p, text, url);
    LinkAtFromChars(s, p, text, url);
  }

  lemma LinkAtFromChars(s: string, p: nat, text: string, url: string)
    requires |text| > 0 && ']' !in text && |url| > 0 && ')' !in url
    requires p + |text| + |url| + 4 <= |s|
    requires s[p] == '['
    requires forall q :: 0 <= q < |text| ==> s[p + 1 + q] == text[q]
    requires s[p + 1 + |text|] == ']' && s[p + 2 + |text|] == '('
    requires forall q :: 0 <= q < |url| ==> s[p + 3 + |text| + q] == url[q]
    requires s[p + 3 + |text| + |url|] == ')'
    ensures LinkAt(s, p) == Some(LinkMatch(text, url, p + |text| + |url| + 4))
  {
    var j := p + 1 + |text|;
    var m := j + 2 + |url|;
    forall k | p + 1 <= k < j ensures s[k] != ']' {
      assert s[p + 1 + (k - p - 1)] == text[k - p - 1];
    }
    forall k | j + 2 <= k < m ensures s[k] != ')' {
      assert s[p + 3 + |text| + (k - j - 2)] == url[k - j - 2];
    }
    CharsSlice(s, p + 1, text);
    CharsSlice(s, j + 2, url);
    LinkAtDelimiters(s, p, j, m);
  }

  // ------------------------------------------------ `(?<!\()(https?://[^\s]+)(?!\))`

  datatype RawMatch = RawMatch(url: string, end: nat)

  predicate IsNotSpace(c: char) {
    !IsSpace(c)
  }

  predicate NoSpace(u: string) {
    forall k :: 0 <= k < |u| ==> !IsSpace(u[k])
  }

  /** `https?://[^\s]+` matched against the whole of `u`. */
  predicate IsWebUrl(u: string) {
    || (|u| > 7 && u[..7] == "http://" && NoSpace(u[7..]))
    || (|u| > 8 && u[..8] == "https://" && NoSpace(u[8..]))
  }

  /** Length of the `http://` or `https://` prefix at `p`, or 0. */
  function SchemeLength(s: string, p: nat): (n: nat)
    ensures n == 0 || n == 7 || n == 8
    ensures n == 7 ==> p + 7 <= |s| && s[p..p + 7] == "http://"
    ensures n == 8 ==> p + 8 <= |s| && s[p..p + 8] == "https://"
    ensures n == 0 ==> !(p + 7 <= |s| && s[p..p + 7] == "http://") && !(p + 8 <= |s| && s[p..p + 8] == "https://")
  {
    if p + 8 <= |s| && s[p..p + 8] == "https://" then 8
    else if p + 7 <= |s| && s[p..p + 7] == "http://" then 7
    else 0
  }

  /**
    The look-behind rejects a start right after `(`. The greedy `[^\s]+` runs
    to the next whitespace or the end of the text, where the look-ahead
    `(?!\))` always succeeds: it never rejects, and a `)` ending a URL is
    taken into the match.
   */
  function RawUrlAt(s: string, p: nat): (r: Option<RawMatch>)
    ensures r.Some? ==>
      && p < r.value.end <= |s|
      && (p == 0 || s[p - 1] != '(')
      && s[p..r.value.end] == r.value.url
      && IsWebUrl(r.value.url)
      && (r.value.end == |s| || IsSpace(s[r.value.end]))
      && (r.value.end == |s| || s[r.value.end] != ')')
  {
    if p < |s| && (p == 0 || s[p - 1] != '(') then
      var k := SchemeLength(s, p);
      if k > 0 then
        var e := RunEnd(s, p + k, IsNotSpace);
        if e > p + k then
          SchemeThenNoSpace(s, p, e);
          Some(RawMatch(s[p..e], e))
        else None
      else None
    else None
  }

  /** A scheme at `p` followed by no whitespace up to `e` makes a web URL. */
  lemma SchemeThenNoSpace(s: string, p: nat, e: nat)
    requires SchemeLength(s, p) > 0 && p + SchemeLength(s, p) < e <= |s|
    requires forall j :: p + SchemeLength(s, p) <= j < e ==> !IsSpace(s[j])
    ensures IsWebUrl(s[p..e])
  {
    var k := SchemeLength(s, p);
    var u := s[p..e];
    assert u[..k] == s[p..p + k];
    forall q | 0 <= q < |u[k..]| ensures !IsSpace(u[k..][q]) {
      assert u[k..][q] == s[p + k + q];
    }
  }

  /** A web URL at `p` starts with the scheme `SchemeLength` sees, followed by no whitespace. */
  lemma WebUrlAt(s: string, p: nat, e: nat)
    requires p < e <= |s| && IsWebUrl(s[p..e])
    ensures SchemeLength(s, p) > 0 && p + SchemeLength(s, p) < e
    ensures forall j :: p + SchemeLength(s, p) <= j < e ==> !IsSpace(s[j])
  {
    var u := s[p..e];
    assert forall q :: 0 <= q < |u| ==> u[q] == s[p + q];
    if |u| > 8 && u[..8] == "https://" {
      assert s[p..p + 8] == u[..8];
      assert SchemeLength(s, p) == 8;
      forall j | p + 8 <= j < e ensures !IsSpace(s[j]) {
        assert s[j] == u[8..][j - p - 8];
      }
    } else {
      assert |u| > 7 && u[..7] == "http://" && NoSpace(u[7..]);
      assert s[p..p + 7] == u[..7];
      assert s[p + 4] == u[..7][4] == ':';
      assert p + 8 <= |s| ==> s[p..p + 8][4] == ':';
      assert SchemeLength(s, p) == 7;
      forall j | p + 7 <= j < e ensures !IsSpace(s[j]) {
        assert s[j] == u[7..][j - p - 7];
      }
    }
  }

  lemma RawUrlAtComplete(s: string, p: nat, e: nat)
    requires p < e <= |s|
    requires p == 0 || s[p - 1] != '('
    requires IsWebUrl(s[p..e])
    requires e == |s| || IsSpace(s[e])
    ensures RawUrlAt(s, p) == Some(RawMatch(s[p..e], e))
  {
    WebUrlAt(s, p, e);
    var k := SchemeLength(s, p);
    assert RunEnd(s, p + k, IsNotSpace) == e;
  }
}
