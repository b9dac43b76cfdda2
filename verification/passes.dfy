/**
  The three rewriting passes of `process_markdown_file`, each a left-to-right
  scan that tries its pattern at every position and resumes after each match,
  as `re.sub` does; and, for each, the theorem that it replaces exactly the
  leftmost matches (`Scanning.Leftmost`) and copies everything else.
 */
module Passes {
  import opened Wrappers
  import opened Text
  import opened Urls
  import opened Citations
  import opened Patterns
  import opened Scanning

  /** The text a pass produced and the registry it leaves behind. */
  datatype Rewrite = Rewrite(text: string, registry: Registry)

  /** `[n]` */
  function Marker(n: nat): string {
    "[" + NatToString(n) + "]"
  }

  function Lookup(numbers: map<string, nat>, u: string): nat {
    if u in numbers then numbers[u] else 0
  }

  // ------------------------------------------------------------ the searches

  function CitationSpans(s: string, i: nat): (spans: seq<Span>)
    requires i <= |s|
    ensures Placed(spans, i, |s|)
  {
    MatchersAdvance();
    Scan(CitationEnd, s, i)
  }

  function LinkSpans(s: string, i: nat): (spans: seq<Span>)
    requires i <= |s|
    ensures Placed(spans, i, |s|)
  {
    MatchersAdvance();
    Scan(LinkEnd, s, i)
  }

  function RawUrlSpans(s: string, i: nat): (spans: seq<Span>)
    requires i <= |s|
    ensures Placed(spans, i, |s|)
  {
    MatchersAdvance();
    Scan(RawUrlEnd, s, i)
  }

  // ------------------------------------------------- stage 1: prefix stripping

  /** Lines 33 and 60-66: each `host.tld[digits]` becomes `[digits]`. */
  function StripDomainPrefixes(s: string, i: nat): (out: string)
    requires i <= |s|
    ensures |out| <= |s| - i
    decreases |s| - i
  {
    if i == |s| then []
    else
      match CitationAt(s, i)
      case Some(m) => "[" + m.digits + "]" + StripDomainPrefixes(s, m.end)
      case None => [s[i]] + StripDomainPrefixes(s, i + 1)
  }

  /** What a citation match is replaced by: its digits, still bracketed. */
  function CitationRepl(s: string, p: nat): string {
    match CitationAt(s, p)
    case Some(m) => "[" + m.digits + "]"
    case None => []
  }

  function CitationRepls(s: string, spans: seq<Span>): (rs: seq<string>)
    ensures |rs| == |spans|
  {
    if spans == [] then [] else [CitationRepl(s, spans[0].start)] + CitationRepls(s, spans[1..])
  }

  /** Stage 1 replaces the leftmost citation matches by their bracketed digits and copies the rest. */
  lemma {:induction false} StripDomainPrefixesSplices(s: string, i: nat)
    requires i <= |s|
    ensures StripDomainPrefixes(s, i) == Splice(s, i, CitationSpans(s, i), CitationRepls(s, CitationSpans(s, i)))
    decreases |s| - i
  {
    MatchersAdvance();
    if i < |s| {
      var spans := CitationSpans(s, i);
      match CitationAt(s, i)
      case Some(m) =>
        assert CitationEnd(s, i) == Some(m.end);
        assert spans == [Span(i, m.end)] + CitationSpans(s, m.end);
        StripDomainPrefixesSplices(s, m.end);
      case None =>
        assert CitationEnd(s, i) == None;
        assert spans == CitationSpans(s, i + 1);
        StripDomainPrefixesSplices(s, i + 1);
        SpliceStep(s, i, spans, CitationRepls(s, spans));
    }
  }

  // ------------------------------------------------- stage 2: Markdown links

  /**
    Lines 36-57 and 69: each `[text](url)` becomes `text[n]`, where `n` is
    the number of the URL cut at `#`, assigned on first sight.
   */
  function RewriteLinks(s: string, i: nat, r: Registry): (out: Rewrite)
    requires i <= |s|
    ensures forall u :: u in r.urlMap ==> u in out.registry.urlMap && out.registry.urlMap[u] == r.urlMap[u]
    ensures out.registry.groups.Some? == r.groups.Some?
    decreases |s| - i
  {
    if i == |s| then Rewrite([], r)
    else
      match LinkAt(s, i)
      case Some(m) =>
        var c := Cite(r, m.url);
        var rest := RewriteLinks(s, m.end, c.registry);
        Rewrite(m.text + Marker(c.number) + rest.text, rest.registry)
      case None =>
        var rest := RewriteLinks(s, i + 1, r);
        Rewrite([s[i]] + rest.text, rest.registry)
  }

  /** The dedup key of the link match at `p`. */
  function LinkKey(s: string, p: nat): string {
    match LinkAt(s, p)
    case Some(m) => Canon(m.url)
    case None => []
  }

  function LinkKeys(s: string, spans: seq<Span>): (keys: seq<string>)
    ensures |keys| == |spans|
  {
    if spans == [] then [] else [LinkKey(s, spans[0].start)] + LinkKeys(s, spans[1..])
  }

  /** What a link match is replaced by, given the final numbering. */
  function LinkRepl(s: string, p: nat, numbers: map<string, nat>): string {
    match LinkAt(s, p)
    case Some(m) => m.text + Marker(Lookup(numbers, Canon(m.url)))
    case None => []
  }

  function LinkRepls(s: string, spans: seq<Span>, numbers: map<string, nat>): (rs: seq<string>)
    ensures |rs| == |spans|
  {
    if spans == [] then [] else [LinkRepl(s, spans[0].start, numbers)] + LinkRepls(s, spans[1..], numbers)
  }

  /** A number handed out by `Cite` survives any later registrations. */
  lemma CitedNumberKept(r: Registry, url: string, keys: seq<string>)
    ensures Lookup(RegisterAll(Cite(r, url).registry, keys).urlMap, Canon(url)) == Cite(r, url).number
  {
    RegisterAllExtends(Cite(r, url).registry, keys);
  }

  /** The stage-2 splice theorem at position `i`, starting from registry `r`. */
  ghost predicate LinksSpliced(s: string, i: nat, r: Registry)
    requires i <= |s|
  {
    var out := RewriteLinks(s, i, r);
    var spans := LinkSpans(s, i);
    && out.registry == RegisterAll(r, LinkKeys(s, spans))
    && out.text == Splice(s, i, spans, LinkRepls(s, spans, out.registry.urlMap))
  }

  lemma LinkSpansAtMatch(s: string, i: nat)
    requires i < |s| && LinkAt(s, i).Some?
    ensures LinkSpans(s, i) == [Span(i, LinkAt(s, i).value.end)] + LinkSpans(s, LinkAt(s, i).value.end)
  {
    MatchersAdvance();
    assert LinkEnd(s, i) == Some(LinkAt(s, i).value.end);
  }

  lemma LinkKeysCons(s: string, sp: Span, rest: seq<Span>)
    ensures LinkKeys(s, [sp] + rest) == [LinkKey(s, sp.start)] + LinkKeys(s, rest)
  {
    assert ([sp] + rest)[1..] == rest;
  }

  lemma LinkReplsCons(s: string, sp: Span, rest: seq<Span>, numbers: map<string, nat>)
    ensures LinkRepls(s, [sp] + rest, numbers) == [LinkRepl(s, sp.start, numbers)] + LinkRepls(s, rest, numbers)
  {
    assert ([sp] + rest)[1..] == rest;
  }

  lemma LinksSplicedAtMatch(s: string, i: nat, r: Registry)
    requires i < |s| && LinkAt(s, i).Some?
    requires LinksSpliced(s, LinkAt(s, i).value.end, Cite(r, LinkAt(s, i).value.url).registry)
    ensures LinksSpliced(s, i, r)
  {
    var m := LinkAt(s, i).value;
    var c := Cite(r, m.url);
    var rest := LinkSpans(s, m.end);
    var tail := RewriteLinks(s, m.end, c.registry);
    var numbers := tail.registry.urlMap;
    var head := m.text + Marker(c.number);
    assert RewriteLinks(s, i, r) == Rewrite(head + tail.text, tail.registry);
    LinkSpansAtMatch(s, i);
    LinkKeysCons(s, Span(i, m.end), rest);
    assert RegisterAll(r, [Canon(m.url)] + LinkKeys(s, rest)) == tail.registry by {
      assert ([Canon(m.url)] + LinkKeys(s, rest))[1..] == LinkKeys(s, rest);
    }
    LinkReplsCons(s, Span(i, m.end), rest, numbers);
    assert LinkRepl(s, i, numbers) == head by {
      CitedNumberKept(r, m.url, LinkKeys(s, rest));
    }
    SpliceAtMatch(s, i, m.end, rest, head, LinkRepls(s, rest, numbers));
  }

  lemma LinksSplicedAtMiss(s: string, i: nat, r: Registry)
    requires i < |s| && LinkAt(s, i).None?
    requires LinksSpliced(s, i + 1, r)
    ensures LinksSpliced(s, i, r)
  {
    var spans := LinkSpans(s, i);
    assert spans == LinkSpans(s, i + 1) by {
      MatchersAdvance();
      assert LinkEnd(s, i) == None;
    }
    SpliceStep(s, i, spans, LinkRepls(s, spans, RewriteLinks(s, i, r).registry.urlMap));
  }

  /**
    Stage 2 registers the keys of the leftmost link matches in order, replaces
    each match by its text and final number, and copies the rest.
   */
  lemma RewriteLinksSplices(s: string, i: nat, r: Registry)
    requires i <= |s|
    ensures RewriteLinks(s, i, r).registry == RegisterAll(r, LinkKeys(s, LinkSpans(s, i)))
    ensures RewriteLinks(s, i, r).text
         == Splice(s, i, LinkSpans(s, i), LinkRepls(s, LinkSpans(s, i), RewriteLinks(s, i, r).registry.urlMap))
  {
    LinksSplicedFrom(s, i, r);
  }

  lemma {:induction false} LinksSplicedFrom(s: string, i: nat, r: Registry)
    requires i <= |s|
    ensures LinksSpliced(s, i, r)
    decreases |s| - i
  {
    if i < |s| {
      match LinkAt(s, i)
      case Some(m) =>
        LinksSplicedFrom(s, m.end, Cite(r, m.url).registry);
        LinksSplicedAtMatch(s, i, r);
      case None =>
        LinksSplicedFrom(s, i + 1, r);
        LinksSplicedAtMiss(s, i, r);
    }
  }

  // ------------------------------------------------- stage 3: raw URLs

  /**
    Lines 72-97: each raw `http(s)://...` not preceded by `(` becomes `[n]`,
    numbered in the same registry as the links.
   */
  function RewriteRawUrls(s: string, i: nat, r: Registry): (out: Rewrite)
    requires i <= |s|
    ensures forall u :: u in r.urlMap ==> u in out.registry.urlMap && out.registry.urlMap[u] == r.urlMap[u]
    ensures out.registry.groups.Some? == r.groups.Some?
    decreases |s| - i
  {
    if i == |s| then Rewrite([], r)
    else
      match RawUrlAt(s, i)
      case Some(m) =>
        var c := Cite(r, m.url);
        var rest := RewriteRawUrls(s, m.end, c.registry);
        Rewrite(Marker(c.number) + rest.text, rest.registry)
      case None =>
        var rest := RewriteRawUrls(s, i + 1, r);
        Rewrite([s[i]] + rest.text, rest.registry)
  }

  function RawUrlKey(s: string, p: nat): string {
    match RawUrlAt(s, p)
    case Some(m) => Canon(m.url)
    case None => []
  }

  function RawUrlKeys(s: string, spans: seq<Span>): (keys: seq<string>)
    ensures |keys| == |spans|
  {
    if spans == [] then [] else [RawUrlKey(s, spans[0].start)] + RawUrlKeys(s, spans[1..])
  }

  /** What a raw-URL match is replaced by, given the final numbering: the marker alone. */
  function RawUrlRepl(s: string, p: nat, numbers: map<string, nat>): string {
    match RawUrlAt(s, p)
    case Some(m) => Marker(Lookup(numbers, Canon(m.url)))
    case None => []
  }

  function RawUrlRepls(s: string, spans: seq<Span>, numbers: map<string, nat>): (rs: seq<string>)
    ensures |rs| == |spans|
  {
    if spans == [] then [] else [RawUrlRepl(s, spans[0].start, numbers)] + RawUrlRepls(s, spans[1..], numbers)
  }

  /** The stage-3 splice theorem at position `i`, starting from registry `r`. */
  ghost predicate RawUrlsSpliced(s: string, i: nat, r: Registry)
    requires i <= |s|
  {
    var out := RewriteRawUrls(s, i, r);
    var spans := RawUrlSpans(s, i);
    && out.registry == RegisterAll(r, RawUrlKeys(s, spans))
    && out.text == Splice(s, i, spans, RawUrlRepls(s, spans, out.registry.urlMap))
  }

  lemma RawUrlSpansAtMatch(s: string, i: nat)
    requires i < |s| && RawUrlAt(s, i).Some?
    ensures RawUrlSpans(s, i) == [Span(i, RawUrlAt(s, i).value.end)] + RawUrlSpans(s, RawUrlAt(s, i).value.end)
  {
    MatchersAdvance();
    assert RawUrlEnd(s, i) == Some(RawUrlAt(s, i).value.end);
  }

  lemma RawUrlKeysCons(s: string, sp: Span, rest: seq<Span>)
    ensures RawUrlKeys(s, [sp] + rest) == [RawUrlKey(s, sp.start)] + RawUrlKeys(s, rest)
  {
    assert ([sp] + rest)[1..] == rest;
  }

  lemma RawUrlReplsCons(s: string, sp: Span, rest: seq<Span>, numbers: map<string, nat>)
    ensures RawUrlRepls(s, [sp] + rest, numbers) == [RawUrlRepl(s, sp.start, numbers)] + RawUrlRepls(s, rest, numbers)
  {
    assert ([sp] + rest)[1..] == rest;
  }

  lemma RawUrlsSplicedAtMatch(s: string, i: nat, r: Registry)
    requires i < |s| && RawUrlAt(s, i).Some?
    requires RawUrlsSpliced(s, RawUrlAt(s, i).value.end, Cite(r, RawUrlAt(s, i).value.url).registry)
    ensures RawUrlsSpliced(s, i, r)
  {
    var m := RawUrlAt(s, i).value;
    var c := Cite(r, m.url);
    var rest := RawUrlSpans(s, m.end);
    var tail := RewriteRawUrls(s, m.end, c.registry);
    var numbers := tail.registry.urlMap;
    var head := Marker(c.number);
    assert RewriteRawUrls(s, i, r) == Rewrite(head + tail.text, tail.registry);
    RawUrlSpansAtMatch(s, i);
    RawUrlKeysCons(s, Span(i, m.end), rest);
    assert RegisterAll(r, [Canon(m.url)] + RawUrlKeys(s, rest)) == tail.registry by {
      assert ([Canon(m.url)] + RawUrlKeys(s, rest))[1..] == RawUrlKeys(s, rest);
    }
    RawUrlReplsCons(s, Span(i, m.end), rest, numbers);
    assert RawUrlRepl(s, i, numbers) == head by {
      CitedNumberKept(r, m.url, RawUrlKeys(s, rest));
    }
    SpliceAtMatch(s, i, m.end, rest, head, RawUrlRepls(s, rest, numbers));
  }

  lemma RawUrlsSplicedAtMiss(s: string, i: nat, r: Registry)
    requires i < |s| && RawUrlAt(s, i).None?
    requires RawUrlsSpliced(s, i + 1, r)
    ensures RawUrlsSpliced(s, i, r)
  {
    var spans := RawUrlSpans(s, i);
    assert spans == RawUrlSpans(s, i + 1) by {
      MatchersAdvance();
      assert RawUrlEnd(s, i) == None;
    }
    SpliceStep(s, i, spans, RawUrlRepls(s, spans, RewriteRawUrls(s, i, r).registry.urlMap));
  }

  /**
    Stage 3 registers the keys of the leftmost raw-URL matches in order,
    replaces each match by its final number only, and copies the rest.
   */
  lemma RewriteRawUrlsSplices(s: string, i: nat, r: Registry)
    requires i <= |s|
    ensures RewriteRawUrls(s, i, r).registry == RegisterAll(r, RawUrlKeys(s, RawUrlSpans(s, i)))
    ensures RewriteRawUrls(s, i, r).text
         == Splice(s, i, RawUrlSpans(s, i), RawUrlRepls(s, RawUrlSpans(s, i), RewriteRawUrls(s, i, r).registry.urlMap))
  {
    RawUrlsSplicedFrom(s, i, r);
  }

  lemma {:induction false} RawUrlsSplicedFrom(s: string, i: nat, r: Registry)
    requires i <= |s|
    ensures RawUrlsSpliced(s, i, r)
    decreases |s| - i
  {
    if i < |s| {
      match RawUrlAt(s, i)
      case Some(m) =>
        RawUrlsSplicedFrom(s, m.end, Cite(r, m.url).registry);
        RawUrlsSplicedAtMatch(s, i, r);
      case None =>
        RawUrlsSplicedFrom(s, i + 1, r);
        RawUrlsSplicedAtMiss(s, i, r);
    }
  }

  // ------------------------------------------------- what each match becomes

  lemma {:induction false} CitationReplsAt(s: string, spans: seq<Span>, k: nat)
    requires k < |spans|
    ensures CitationRepls(s, spans)[k] == CitationRepl(s, spans[k].start)
  {
    if k > 0 {
      CitationReplsAt(s, spans[1..], k - 1);
    }
  }

  lemma {:induction false} LinkReplsAt(s: string, spans: seq<Span>, numbers: map<string, nat>, k: nat)
    requires k < |spans|
    ensures LinkRepls(s, spans, numbers)[k] == LinkRepl(s, spans[k].start, numbers)
    ensures LinkKeys(s, spans)[k] == LinkKey(s, spans[k].start)
  {
    if k > 0 {
      LinkReplsAt(s, spans[1..], numbers, k - 1);
    }
  }

  lemma {:induction false} RawUrlReplsAt(s: string, spans: seq<Span>, numbers: map<string, nat>, k: nat)
    requires k < |spans|
    ensures RawUrlRepls(s, spans, numbers)[k] == RawUrlRepl(s, spans[k].start, numbers)
    ensures RawUrlKeys(s, spans)[k] == RawUrlKey(s, spans[k].start)
  {
    if k > 0 {
      RawUrlReplsAt(s, spans[1..], numbers, k - 1);
    }
  }

  /**
    Each stage-1 match is a host-like name followed by its replacement: the
    host is dropped and the bracketed digits are kept as they were.
   */
  lemma StripKeepsDigits(s: string, i: nat, k: nat)
    requires i <= |s| && k < |CitationSpans(s, i)|
    ensures var sp := CitationSpans(s, i)[k];
            && CitationAt(s, sp.start).Some?
            && var m := CitationAt(s, sp.start).value;
            && HostLike(m.host)
            && CitationRepls(s, CitationSpans(s, i))[k] == "[" + m.digits + "]"
            && s[sp.start..sp.end] == m.host + CitationRepls(s, CitationSpans(s, i))[k]
  {
    var sp := CitationSpans(s, i)[k];
    assert CitationEnd(s, sp.start) == Some(sp.end) by {
      MatchersAdvance();
      ScanSpanMatches(CitationEnd, s, i, k);
    }
    CitationReplsAt(s, CitationSpans(s, i), k);
  }

  /**
    Each stage-2 match is `[text](url)` and becomes the text, verbatim, then
    the number of the URL cut at `#`; the URL and its parentheses are gone.
   */
  lemma LinkKeepsText(s: string, i: nat, numbers: map<string, nat>, k: nat)
    requires i <= |s| && k < |LinkSpans(s, i)|
    ensures var sp := LinkSpans(s, i)[k];
            && LinkAt(s, sp.start).Some?
            && var m := LinkAt(s, sp.start).value;
            && s[sp.start..sp.end] == "[" + m.text + "](" + m.url + ")"
            && LinkKeys(s, LinkSpans(s, i))[k] == Canon(m.url)
            && LinkRepls(s, LinkSpans(s, i), numbers)[k] == m.text + Marker(Lookup(numbers, Canon(m.url)))
  {
    var sp := LinkSpans(s, i)[k];
    assert LinkEnd(s, sp.start) == Some(sp.end) by {
      MatchersAdvance();
      ScanSpanMatches(LinkEnd, s, i, k);
    }
    LinkReplsAt(s, LinkSpans(s, i), numbers, k);
  }

  /**
    Each stage-3 match is a whole `http://` or `https://` URL, never starting
    right after `(`, running to whitespace or the end, and becomes its number
    alone.
   */
  lemma RawUrlBecomesMarker(s: string, i: nat, numbers: map<string, nat>, k: nat)
    requires i <= |s| && k < |RawUrlSpans(s, i)|
    ensures var sp := RawUrlSpans(s, i)[k];
            && (sp.start == 0 || s[sp.start - 1] != '(')
            && IsWebUrl(s[sp.start..sp.end])
            && (sp.end == |s| || IsSpace(s[sp.end]))
            && RawUrlKeys(s, RawUrlSpans(s, i))[k] == Canon(s[sp.start..sp.end])
            && RawUrlRepls(s, RawUrlSpans(s, i), numbers)[k] == Marker(Lookup(numbers, Canon(s[sp.start..sp.end])))
  {
    var sp := RawUrlSpans(s, i)[k];
    assert RawUrlEnd(s, sp.start) == Some(sp.end) by {
      MatchersAdvance();
      ScanSpanMatches(RawUrlEnd, s, i, k);
    }
    RawUrlReplsAt(s, RawUrlSpans(s, i), numbers, k);
  }

  /** No position right after `(` starts a raw-URL match, so no such URL is rewritten from there. */
  lemma ParenthesisedUrlNotRewritten(s: string, i: nat, p: nat)
    requires i <= |s| && 0 < p <= |s| && s[p - 1] == '('
    ensures forall k :: 0 <= k < |RawUrlSpans(s, i)| ==> RawUrlSpans(s, i)[k].start != p
  {
    forall k | 0 <= k < |RawUrlSpans(s, i)|
      ensures RawUrlSpans(s, i)[k].start != p
    {
      RawUrlBecomesMarker(s, i, map[], k);
    }
  }
}
