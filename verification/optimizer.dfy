/**
  `process_markdown_file` without its file I/O: the document text goes in,
  the rewritten text and the number of distinct URLs come out. The theorems
  here describe the whole output in terms of the three searches and the
  registry they fill.
 */
module Optimizer {
  import opened Wrappers
  import opened Citations
  import opened Scanning
  import opened Passes
  import opened References

  /** The rewritten document and the returned `len(urls)`. */
  datatype Outcome = Outcome(text: string, count: nat)

  /** Stage 1 (lines 60-66), skipped when domain names are kept. */
  function Stripped(doc: string, keepDomainNames: bool): string {
    if keepDomainNames then doc else StripDomainPrefixes(doc, 0)
  }

  /** Stage 2 (line 69) on a fresh registry (lines 25-28). */
  function Linked(doc: string, groupByDomain: bool, keepDomainNames: bool): Rewrite {
    RewriteLinks(Stripped(doc, keepDomainNames), 0, Empty(groupByDomain))
  }

  /** Stage 3 (line 97), continuing the registry of stage 2. */
  function Body(doc: string, groupByDomain: bool, keepDomainNames: bool): Rewrite {
    var l := Linked(doc, groupByDomain, keepDomainNames);
    RewriteRawUrls(l.text, 0, l.registry)
  }

  /**
    The dedup keys in the order the two scans meet them: first the link URLs
    of the (stripped) document, then the raw URLs of the stage-2 output. The
    second scan sees the markers stage 2 wrote. A link text that ends in a
    web URL without `#` yields a raw key with the marker attached. When the URL
    holds `#`, the key is the part before it.
   */
  function CitedKeys(doc: string, groupByDomain: bool, keepDomainNames: bool): seq<string> {
    var s1 := Stripped(doc, keepDomainNames);
    var s2 := Linked(doc, groupByDomain, keepDomainNames).text;
    LinkKeys(s1, LinkSpans(s1, 0)) + RawUrlKeys(s2, RawUrlSpans(s2, 0))
  }

  /**
    Lines 24-117 without the file I/O. The count is the number of distinct
    keys, each cut at `#`, that the two scans collect.
   */
  function ProcessMarkdown(doc: string, groupByDomain: bool, keepDomainNames: bool): (out: Outcome)
    ensures out.count == |set k | k in CitedKeys(doc, groupByDomain, keepDomainNames)|
  {
    var b := Body(doc, groupByDomain, keepDomainNames);
    RegistryFromCitedKeys(doc, groupByDomain, keepDomainNames);
    CountIsDistinctKeys(groupByDomain, CitedKeys(doc, groupByDomain, keepDomainNames));
    Outcome(b.text + ReferenceSection(b.registry), |b.registry.urls|)
  }

  // ---------------------------------------------------------------- the registry

  /** The final registry is what registering the cited keys one by one produces. */
  lemma RegistryFromCitedKeys(doc: string, groupByDomain: bool, keepDomainNames: bool)
    ensures Body(doc, groupByDomain, keepDomainNames).registry
         == RegisterAll(Empty(groupByDomain), CitedKeys(doc, groupByDomain, keepDomainNames))
  {
    var s1 := Stripped(doc, keepDomainNames);
    var l := Linked(doc, groupByDomain, keepDomainNames);
    RewriteLinksSplices(s1, 0, Empty(groupByDomain));
    RewriteRawUrlsSplices(l.text, 0, l.registry);
    RegisterAllAppend(Empty(groupByDomain), LinkKeys(s1, LinkSpans(s1, 0)), RawUrlKeys(l.text, RawUrlSpans(l.text, 0)));
  }

  lemma {:induction false} LinkKeysUnfragmented(s: string, spans: seq<Span>)
    ensures forall k :: 0 <= k < |spans| ==> '#' !in LinkKeys(s, spans)[k]
  {
    if spans != [] {
      LinkKeysUnfragmented(s, spans[1..]);
      assert forall k :: 1 <= k < |spans| ==> LinkKeys(s, spans)[k] == LinkKeys(s, spans[1..])[k - 1];
    }
  }

  lemma {:induction false} RawUrlKeysUnfragmented(s: string, spans: seq<Span>)
    ensures forall k :: 0 <= k < |spans| ==> '#' !in RawUrlKeys(s, spans)[k]
  {
    if spans != [] {
      RawUrlKeysUnfragmented(s, spans[1..]);
      assert forall k :: 1 <= k < |spans| ==> RawUrlKeys(s, spans)[k] == RawUrlKeys(s, spans[1..])[k - 1];
    }
  }

  /** No dedup key keeps a fragment. */
  lemma CitedKeysUnfragmented(doc: string, groupByDomain: bool, keepDomainNames: bool)
    ensures forall j :: 0 <= j < |CitedKeys(doc, groupByDomain, keepDomainNames)| ==>
              '#' !in CitedKeys(doc, groupByDomain, keepDomainNames)[j]
  {
    var s1 := Stripped(doc, keepDomainNames);
    var s2 := Linked(doc, groupByDomain, keepDomainNames).text;
    var a := LinkKeys(s1, LinkSpans(s1, 0));
    var b := RawUrlKeys(s2, RawUrlSpans(s2, 0));
    LinkKeysUnfragmented(s1, LinkSpans(s1, 0));
    RawUrlKeysUnfragmented(s2, RawUrlSpans(s2, 0));
    UnfragmentedConcat(a, b);
  }

  lemma UnfragmentedConcat(a: seq<string>, b: seq<string>)
    requires forall k :: 0 <= k < |a| ==> '#' !in a[k]
    requires forall k :: 0 <= k < |b| ==> '#' !in b[k]
    ensures forall j :: 0 <= j < |a + b| ==> '#' !in (a + b)[j]
  {
    assert forall j :: |a| <= j < |a + b| ==> (a + b)[j] == b[j - |a|];
  }

  /**
    After both scans the registry satisfies its invariant (numbering, and the
    domain partition when grouping), lists the cited keys in first-seen order,
    and holds no URL with a fragment.
   */
  lemma FinalRegistryValid(doc: string, groupByDomain: bool, keepDomainNames: bool)
    ensures Valid(Body(doc, groupByDomain, keepDomainNames).registry)
    ensures InFirstSeenOrder(Body(doc, groupByDomain, keepDomainNames).registry.urls,
                             CitedKeys(doc, groupByDomain, keepDomainNames))
    ensures forall i :: 0 <= i < |Body(doc, groupByDomain, keepDomainNames).registry.urls| ==>
              '#' !in Body(doc, groupByDomain, keepDomainNames).registry.urls[i]
    ensures Body(doc, groupByDomain, keepDomainNames).registry.groups.Some? == groupByDomain
  {
    var keys := CitedKeys(doc, groupByDomain, keepDomainNames);
    var r := Body(doc, groupByDomain, keepDomainNames).registry;
    RegistryFromCitedKeys(doc, groupByDomain, keepDomainNames);
    assert Valid(r) by {
      RegisterAllValid(Empty(groupByDomain), keys);
    }
    assert InFirstSeenOrder(r.urls, keys) by {
      RegisterAllFirstSeen(groupByDomain, keys);
    }
    assert r.groups.Some? == groupByDomain by {
      RegisterAllExtends(Empty(groupByDomain), keys);
    }
    CitedKeysUnfragmented(doc, groupByDomain, keepDomainNames);
    forall i | 0 <= i < |r.urls| ensures '#' !in r.urls[i] {
      assert r.urls[i] in keys;
    }
  }

  // ---------------------------------------------------------------- the text

  /** Link replacements read the same under any numbering that agrees on the link keys. */
  lemma {:induction false} LinkReplsAgree(s: string, spans: seq<Span>, m1: map<string, nat>, m2: map<string, nat>)
    requires forall k :: 0 <= k < |spans| ==> Lookup(m1, LinkKeys(s, spans)[k]) == Lookup(m2, LinkKeys(s, spans)[k])
    ensures LinkRepls(s, spans, m1) == LinkRepls(s, spans, m2)
  {
    if spans != [] {
      assert Lookup(m1, LinkKeys(s, spans)[0]) == Lookup(m2, LinkKeys(s, spans)[0]);
      forall k | 0 <= k < |spans[1..]|
        ensures Lookup(m1, LinkKeys(s, spans[1..])[k]) == Lookup(m2, LinkKeys(s, spans[1..])[k])
      {
        assert LinkKeys(s, spans[1..])[k] == LinkKeys(s, spans)[k + 1];
      }
      LinkReplsAgree(s, spans[1..], m1, m2);
    }
  }

  /**
    The whole output: stage 1 replaces each citation match by its bracketed
    digits (unless domain names are kept), stage 2 each link match by its text
    and the final number of its URL, stage 3 each raw-URL match by that number
    alone, everything else is copied, and the references section follows.
   */
  lemma OutputShape(doc: string, groupByDomain: bool, keepDomainNames: bool)
    ensures var s1 := Stripped(doc, keepDomainNames);
            var s2 := Linked(doc, groupByDomain, keepDomainNames).text;
            var r := Body(doc, groupByDomain, keepDomainNames).registry;
            && s1 == (if keepDomainNames then doc else Splice(doc, 0, CitationSpans(doc, 0), CitationRepls(doc, CitationSpans(doc, 0))))
            && s2 == Splice(s1, 0, LinkSpans(s1, 0), LinkRepls(s1, LinkSpans(s1, 0), r.urlMap))
            && ProcessMarkdown(doc, groupByDomain, keepDomainNames).text
               == Splice(s2, 0, RawUrlSpans(s2, 0), RawUrlRepls(s2, RawUrlSpans(s2, 0), r.urlMap)) + ReferenceSection(r)
  {
    var s1 := Stripped(doc, keepDomainNames);
    var l := Linked(doc, groupByDomain, keepDomainNames);
    var r := Body(doc, groupByDomain, keepDomainNames).registry;
    if !keepDomainNames {
      StripDomainPrefixesSplices(doc, 0);
    }
    var spans := LinkSpans(s1, 0);
    var keys := LinkKeys(s1, spans);
    RewriteLinksSplices(s1, 0, Empty(groupByDomain));
    RewriteRawUrlsSplices(l.text, 0, l.registry);
    RegisterAllExtends(Empty(groupByDomain), keys);
    RegisterAllExtends(l.registry, RawUrlKeys(l.text, RawUrlSpans(l.text, 0)));
    forall k | 0 <= k < |spans|
      ensures Lookup(l.registry.urlMap, keys[k]) == Lookup(r.urlMap, keys[k])
    {
      assert keys[k] in keys;
    }
    LinkReplsAgree(s1, spans, l.registry.urlMap, r.urlMap);
  }

  /**
    Every cited URL has its entry: its number lies between 1 and the count,
    and the section lists that number with that URL exactly once.
   */
  lemma CitedUrlsListed(doc: string, groupByDomain: bool, keepDomainNames: bool, key: string)
    requires key in CitedKeys(doc, groupByDomain, keepDomainNames)
    ensures var r := Body(doc, groupByDomain, keepDomainNames).registry;
            && key in r.urlMap
            && Lookup(r.urlMap, key) == r.urlMap[key]
            && 1 <= r.urlMap[key] <= ProcessMarkdown(doc, groupByDomain, keepDomainNames).count
            && multiset(Listed(ListingOf(r)))[Entry(r.urlMap[key], key)] == 1
  {
    var r := Body(doc, groupByDomain, keepDomainNames).registry;
    FinalRegistryValid(doc, groupByDomain, keepDomainNames);
    assert key in r.urls;
    NumberIsPosition(r, key);
    ReferencesComplete(r);
    assert Entry(r.urlMap[key], key) == Entry((r.urlMap[key] - 1) + 1, r.urls[r.urlMap[key] - 1]);
  }

  /**
    Reading the text after the rewritten body gives back the listing: every
    registered URL once, under its number, flat or grouped as requested —
    provided no listed URL or domain holds a line break, which the rendering
    cannot distinguish from the entry separator.
   */
  lemma ReferencesReadBack(doc: string, groupByDomain: bool, keepDomainNames: bool)
    requires SingleLines(ListingOf(Body(doc, groupByDomain, keepDomainNames).registry))
    ensures var b := Body(doc, groupByDomain, keepDomainNames);
            var out := ProcessMarkdown(doc, groupByDomain, keepDomainNames);
            && b.text <= out.text
            && ReadSection(out.text[|b.text|..], groupByDomain) == Some(ListingOf(b.registry))
            && |Listed(ListingOf(b.registry))| == out.count
  {
    var b := Body(doc, groupByDomain, keepDomainNames);
    var out := ProcessMarkdown(doc, groupByDomain, keepDomainNames);
    FinalRegistryValid(doc, groupByDomain, keepDomainNames);
    assert out.text[|b.text|..] == ReferenceSection(b.registry);
    ReadSectionRoundTrip(ListingOf(b.registry));
    ReferencesComplete(b.registry);
  }

  /**
    A URL the link pass already numbered keeps that number in the raw-URL
    pass: stage 3 only adds URLs it has not seen.
   */
  lemma LinkNumbersKept(doc: string, groupByDomain: bool, keepDomainNames: bool, key: string)
    requires var s1 := Stripped(doc, keepDomainNames); key in LinkKeys(s1, LinkSpans(s1, 0))
    ensures var l := Linked(doc, groupByDomain, keepDomainNames);
            var r := Body(doc, groupByDomain, keepDomainNames).registry;
            key in l.registry.urlMap && key in r.urlMap && r.urlMap[key] == l.registry.urlMap[key]
  {
    var s1 := Stripped(doc, keepDomainNames);
    var l := Linked(doc, groupByDomain, keepDomainNames);
    RewriteLinksSplices(s1, 0, Empty(groupByDomain));
    RegisterAllExtends(Empty(groupByDomain), LinkKeys(s1, LinkSpans(s1, 0)));
  }
}
