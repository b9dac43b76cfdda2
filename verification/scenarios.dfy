/**
  Small documents: URLs that differ only in their fragment share one number,
  domain groups follow first-seen order while the numbers stay global, and a
  link whose text is its own URL is counted twice.
 */
module Scenarios {
  import opened Wrappers
  import opened Urls
  import opened Citations
  import opened Patterns
  import opened Scanning
  import opened Passes
  import opened Optimizer

  /**
    A link to `base#fragment` followed by one to `base` (as in
    `[OpenAI](https://openai.com/blog#intro)` then
    `[OpenAI again](https://openai.com/blog)`): one URL, number 1 for both.
   */
  lemma FragmentVariantsShareNumber(groupByDomain: bool, base: string, fragment: string)
    requires '#' !in base
    ensures var c1 := Cite(Empty(groupByDomain), base + "#" + fragment);
            var c2 := Cite(c1.registry, base);
            && c1.number == 1 && c2.number == 1
            && c2.registry.urls == [base]
  {
    CanonDropsFragment(base, fragment);
    var c1 := Cite(Empty(groupByDomain), base + "#" + fragment);
    assert c1.registry.urlMap == map[base := 1];
  }

  /**
    Three distinct URLs where the first and third share a host (as in
    `a.com/x`, `b.com/y`, `a.com/z`), grouping on: the first host's group
    comes first and holds numbers 1 and 3, the other group holds 2.
   */
  lemma GroupsInFirstSeenOrder(u1: string, u2: string, u3: string)
    requires u1 != u2 && u2 != u3 && u1 != u3
    requires Host(u1) == Host(u3) != Host(u2)
    ensures RegisterAll(Empty(true), [u1, u2, u3]).groups
         == Some([Group(Host(u1), [Entry(1, u1), Entry(3, u3)]), Group(Host(u2), [Entry(2, u2)])])
  {
    var r1 := Register(Empty(true), u1);
    var r2 := Register(r1, u2);
    FirstOfThree(u1);
    SecondOfThree(r1, u1, u2);
    ThirdOfThree(r2, u1, u2, u3);
    RegisterThree(u1, u2, u3);
  }

  lemma FirstOfThree(u1: string)
    ensures var r1 := Register(Empty(true), u1);
      && r1.urlMap == map[u1 := 1] && r1.next == 2
      && r1.groups == Some([Group(Host(u1), [Entry(1, u1)])])
  {
    RegisterOpensGroup(Empty(true), u1);
    assert [] + [Group(Host(u1), [Entry(1, u1)])] == [Group(Host(u1), [Entry(1, u1)])];
  }

  lemma SecondOfThree(r1: Registry, u1: string, u2: string)
    requires u1 != u2 && Host(u1) != Host(u2)
    requires r1.urlMap == map[u1 := 1] && r1.next == 2
    requires r1.groups == Some([Group(Host(u1), [Entry(1, u1)])])
    ensures var r2 := Register(r1, u2);
      && r2.urlMap == map[u1 := 1, u2 := 2] && r2.next == 3
      && r2.groups == Some([Group(Host(u1), [Entry(1, u1)]), Group(Host(u2), [Entry(2, u2)])])
  {
    var g1 := Group(Host(u1), [Entry(1, u1)]);
    var g2 := Group(Host(u2), [Entry(2, u2)]);
    RegisterOpensGroup(r1, u2);
    assert [g1] + [g2] == [g1, g2];
  }

  lemma ThirdOfThree(r2: Registry, u1: string, u2: string, u3: string)
    requires u1 != u3 && u2 != u3 && Host(u1) == Host(u3)
    requires r2.urlMap == map[u1 := 1, u2 := 2] && r2.next == 3
    requires r2.groups == Some([Group(Host(u1), [Entry(1, u1)]), Group(Host(u2), [Entry(2, u2)])])
    ensures Register(r2, u3).groups
         == Some([Group(Host(u1), [Entry(1, u1), Entry(3, u3)]), Group(Host(u2), [Entry(2, u2)])])
  {
    var g1 := Group(Host(u1), [Entry(1, u1)]);
    var g2 := Group(Host(u2), [Entry(2, u2)]);
    RegisterJoinsGroup(r2, u3, 0);
    var es := [Entry(1, u1)] + [Entry(3, u3)];
    assert es == [Entry(1, u1), Entry(3, u3)];
    assert [g1, g2][0 := Group(Host(u1), es)] == [Group(Host(u1), es), g2];
  }

  lemma RegisterThree(u1: string, u2: string, u3: string)
    ensures RegisterAll(Empty(true), [u1, u2, u3]) == Register(Register(Register(Empty(true), u1), u2), u3)
  {
    var r1 := Register(Empty(true), u1);
    RegisterAllAppend(Empty(true), [u1], [u2, u3]);
    RegisterAllAppend(r1, [u2], [u3]);
    assert [u1, u2, u3] == [u1] + [u2, u3];
  }

  // ------------------------------------------- a link whose text is its URL

  /** Appending characters that are not whitespace keeps a web URL a web URL. */
  lemma WebUrlExtends(u: string, t: string)
    requires IsWebUrl(u) && NoSpace(t)
    ensures IsWebUrl(u + t)
  {
    var n := if |u| > 8 && u[..8] == "https://" && NoSpace(u[8..]) then 8 else 7;
    assert (u + t)[..n] == u[..n];
    assert (u + t)[n..] == u[n..] + t;
  }

  /** Stage 2 on `[u](u)`: one link, cited as 1, leaving `u[1]`. */
  lemma SelfLinkStageTwo(u: string, groupByDomain: bool)
    requires IsWebUrl(u) && ']' !in u && ')' !in u && '#' !in u
    ensures var doc := "[" + u + "](" + u + ")";
      && LinkKeys(doc, LinkSpans(doc, 0)) == [u]
      && Linked(doc, groupByDomain, true).text == u + "[1]"
      && Linked(doc, groupByDomain, true).registry == Register(Empty(groupByDomain), u)
  {
    var doc := "[" + u + "](" + u + ")";
    var e := Empty(groupByDomain);
    assert doc[0..|doc|] == doc;
    LinkAtComplete(doc, 0, u, u);
    LinkSpansAtMatch(doc, 0);
    assert LinkSpans(doc, |doc|) == [];
    assert LinkSpans(doc, 0) == [Span(0, |doc|)];
    CanonDropsFragment(u, "");
    var c := Cite(e, u);
    assert c.number == 1 && c.registry == Register(e, u);
    assert Marker(1) == "[1]";
    assert RewriteLinks(doc, |doc|, c.registry) == Rewrite([], c.registry);
    assert u + "[1]" + [] == u + "[1]";
  }

  /** Stage 3 on `u[1]` after stage 2: the whole of `u[1]` is a new URL, cited as 2. */
  lemma SelfLinkStageThree(u: string, groupByDomain: bool)
    requires IsWebUrl(u) && '#' !in u
    ensures var s := u + "[1]";
      var r := Register(Empty(groupByDomain), u);
      && RawUrlKeys(s, RawUrlSpans(s, 0)) == [s]
      && RewriteRawUrls(s, 0, r).text == "[2]"
      && RewriteRawUrls(s, 0, r).registry.urls == [u, s]
  {
    var s := u + "[1]";
    var r := Register(Empty(groupByDomain), u);
    assert NoSpace("[1]");
    WebUrlExtends(u, "[1]");
    assert s[0..|s|] == s;
    RawUrlAtComplete(s, 0, |s|);
    RawUrlSpansAtMatch(s, 0);
    assert RawUrlSpans(s, |s|) == [];
    assert RawUrlSpans(s, 0) == [Span(0, |s|)];
    assert '#' !in s;
    CanonDropsFragment(s, "");
    assert r.urlMap == map[u := 1] && r.next == 2 && r.urls == [u];
    assert s != u by { assert |s| == |u| + 3; }
    var c := Cite(r, s);
    assert c.number == 2 && c.registry == Register(r, s);
    assert Marker(2) == "[2]";
    assert RewriteRawUrls(s, |s|, c.registry) == Rewrite([], c.registry);
    assert "[2]" + [] == "[2]";
  }

  /**
    `[u](u)`: stage 2 leaves `u[1]`, and stage 3 reads `u[1]` as one more raw
    URL, because `[^\s]+` takes in the marker. The count is 2 for one URL, the
    body is `[2]`, and the section lists `u` under 1, a number the body no
    longer holds.
   */
  lemma SelfLinkCountedTwice(u: string, groupByDomain: bool)
    requires IsWebUrl(u) && ']' !in u && ')' !in u && '#' !in u
    ensures var doc := "[" + u + "](" + u + ")";
      && ProcessMarkdown(doc, groupByDomain, true).count == 2
      && Body(doc, groupByDomain, true).text == "[2]"
      && Body(doc, groupByDomain, true).registry.urls == [u, u + "[1]"]
  {
    var doc := "[" + u + "](" + u + ")";
    var s := u + "[1]";
    SelfLinkStageTwo(u, groupByDomain);
    SelfLinkStageThree(u, groupByDomain);
    assert CitedKeys(doc, groupByDomain, true) == [u, s];
    assert (set k | k in [u, s]) == {u, s};
    assert s != u by { assert |s| == |u| + 3; }
  }

  /** Stage 2 on `[u#f](u)`: one link, cited as 1, leaving `u#f[1]`. */
  lemma FragmentLinkStageTwo(u: string, f: string, groupByDomain: bool)
    requires IsWebUrl(u) && ']' !in u && ')' !in u && '#' !in u && ']' !in f
    ensures var doc := "[" + (u + "#" + f) + "](" + u + ")";
      && LinkKeys(doc, LinkSpans(doc, 0)) == [u]
      && Linked(doc, groupByDomain, true).text == u + "#" + f + "[1]"
      && Linked(doc, groupByDomain, true).registry == Register(Empty(groupByDomain), u)
  {
    var t := u + "#" + f;
    var doc := "[" + t + "](" + u + ")";
    var e := Empty(groupByDomain);
    assert ']' !in t;
    assert doc[0..|doc|] == doc;
    LinkAtComplete(doc, 0, t, u);
    LinkSpansAtMatch(doc, 0);
    assert LinkSpans(doc, |doc|) == [];
    assert LinkSpans(doc, 0) == [Span(0, |doc|)];
    CanonDropsFragment(u, "");
    var c := Cite(e, u);
    assert c.number == 1 && c.registry == Register(e, u);
    assert Marker(1) == "[1]";
    assert RewriteLinks(doc, |doc|, c.registry) == Rewrite([], c.registry);
    assert t + "[1]" + [] == t + "[1]";
  }

  /** Stage 3 on `u#f[1]` after stage 2: the match is cut at `#` back to `u`, which already has number 1. */
  lemma FragmentLinkStageThree(u: string, f: string, groupByDomain: bool)
    requires IsWebUrl(u) && '#' !in u && NoSpace(f)
    ensures var s := u + "#" + f + "[1]";
      var r := Register(Empty(groupByDomain), u);
      && RawUrlKeys(s, RawUrlSpans(s, 0)) == [u]
      && RewriteRawUrls(s, 0, r).text == "[1]"
      && RewriteRawUrls(s, 0, r).registry == r
  {
    var s := u + "#" + f + "[1]";
    var r := Register(Empty(groupByDomain), u);
    var tail := "#" + f + "[1]";
    assert NoSpace(tail) by {
      forall k | 0 <= k < |tail| ensures IsNotSpace(tail[k]) {
        if 1 <= k < 1 + |f| { assert tail[k] == f[k - 1]; }
      }
    }
    assert s == u + tail;
    WebUrlExtends(u, tail);
    assert s[0..|s|] == s;
    RawUrlAtComplete(s, 0, |s|);
    RawUrlSpansAtMatch(s, 0);
    assert RawUrlSpans(s, |s|) == [];
    assert RawUrlSpans(s, 0) == [Span(0, |s|)];
    assert s == u + "#" + (f + "[1]");
    CanonDropsFragment(u, f + "[1]");
    assert u in r.urlMap && r.urlMap[u] == 1;
    var c := Cite(r, s);
    assert c.number == 1 && c.registry == r;
    assert Marker(1) == "[1]";
    assert RewriteRawUrls(s, |s|, c.registry) == Rewrite([], c.registry);
    assert "[1]" + [] == "[1]";
  }

  /**
    `[u#f](u)`: stage 3 again takes in the marker, but cuts the match at `#`
    back to `u`, which stage 2 already numbered. The body is `[1]`, one URL is
    registered and the count is 1: the double count above needs a URL
    without `#`.
   */
  lemma FragmentLinkCountedOnce(u: string, f: string, groupByDomain: bool)
    requires IsWebUrl(u) && ']' !in u && ')' !in u && '#' !in u
    requires ']' !in f && NoSpace(f)
    ensures var doc := "[" + (u + "#" + f) + "](" + u + ")";
      && ProcessMarkdown(doc, groupByDomain, true).count == 1
      && Body(doc, groupByDomain, true).text == "[1]"
      && Body(doc, groupByDomain, true).registry.urls == [u]
  {
    var doc := "[" + (u + "#" + f) + "](" + u + ")";
    FragmentLinkStageTwo(u, f, groupByDomain);
    FragmentLinkStageThree(u, f, groupByDomain);
    assert CitedKeys(doc, groupByDomain, true) == [u, u];
    assert (set k | k in [u, u]) == {u};
  }
}
