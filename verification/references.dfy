/**
  The references section appended after the rewritten body (lines 99-111):
  its rendering, a reader that recovers the listing from the rendered text,
  and the fact that the listing names every registered URL exactly once.
 */
module References {
  import opened Wrappers
  import opened Text
  import opened Citations

  const Heading: string := "\n\n## References\n\n"

  /** `[n] url` and a blank line. */
  function EntryText(e: Entry): string {
    "[" + NatToString(e.number) + "] " + e.url + "\n\n"
  }

  function EntriesText(es: seq<Entry>): string {
    if es == [] then [] else EntryText(es[0]) + EntriesText(es[1..])
  }

  /** `### domain`, a blank line, then the group's entries. */
  function GroupText(g: Group): string {
    "### " + g.domain + "\n\n" + EntriesText(g.entries)
  }

  function GroupsText(gs: seq<Group>): string {
    if gs == [] then [] else GroupText(gs[0]) + GroupsText(gs[1..])
  }

  /** What the section lists: one flat list, or the domain groups in insertion order. */
  datatype Listing = Flat(entries: seq<Entry>) | Grouped(groups: seq<Group>)

  function ListingOf(r: Registry): Listing {
    match r.groups
    case None => Flat(FlatEntries(r.urls))
    case Some(gs) => Grouped(gs)
  }

  /** The entries in the order the section lists them. */
  function Listed(l: Listing): seq<Entry> {
    match l
    case Flat(es) => es
    case Grouped(gs) => Flatten(gs)
  }

  function ListingText(l: Listing): string {
    match l
    case Flat(es) => EntriesText(es)
    case Grouped(gs) => GroupsText(gs)
  }

  /** The heading followed by the flat list (lines 109-111) or the groups (lines 102-107). */
  function ReferenceSection(r: Registry): string {
    Heading + ListingText(ListingOf(r))
  }

  // ------------------------------------------------------------ reading back

  /** Entries read off the front of a text, and what follows them. */
  datatype Parsed = Parsed(entries: seq<Entry>, rest: string)

  /** Reads one `[n] url` line and its blank line off the front of `t`. */
  function ReadEntry(t: string): (r: Option<(Entry, string)>)
    ensures r.Some? ==> |r.value.1| < |t|
  {
    if |t| == 0 || t[0] != '[' then None
    else
      var j := RunEnd(t, 1, IsDigit);
      if j == 1 || j + 1 >= |t| || t[j] != ']' || t[j + 1] != ' ' then None
      else
        var k := FindFrom(t, '\n', j + 2);
        if k + 1 >= |t| || t[k + 1] != '\n' then None
        else
          assert AllDigits(t[1..j]) by {
            forall q | 0 <= q < j - 1 ensures IsDigit(t[1..j][q]) {
              assert t[1..j][q] == t[1 + q];
            }
          }
          Some((Entry(ParseDecimal(t[1..j]), t[j + 2..k]), t[k + 2..]))
  }

  /** Reads entries for as long as the text starts with one. */
  function ReadEntries(t: string): (p: Parsed)
    ensures |p.rest| <= |t|
    decreases |t|
  {
    match ReadEntry(t)
    case None => Parsed([], t)
    case Some((e, t')) =>
      var p := ReadEntries(t');
      Parsed([e] + p.entries, p.rest)
  }

  /** Reads `### domain` groups, each with its entries, until the text is used up. */
  function ReadGroups(t: string): Option<seq<Group>>
    decreases |t|
  {
    if t == [] then Some([])
    else if |t| < 4 || t[..4] != "### " then None
    else
      var k := FindFrom(t, '\n', 4);
      if k + 1 >= |t| || t[k + 1] != '\n' then None
      else
        var p := ReadEntries(t[k + 2..]);
        match ReadGroups(p.rest)
        case None => None
        case Some(gs) => Some([Group(t[4..k], p.entries)] + gs)
  }

  /** Reads a whole references section of the given mode. */
  function ReadSection(t: string, grouped: bool): Option<Listing> {
    if |t| < |Heading| || t[..|Heading|] != Heading then None
    else if grouped then
      match ReadGroups(t[|Heading|..])
      case None => None
      case Some(gs) => Some(Grouped(gs))
    else
      var p := ReadEntries(t[|Heading|..]);
      if p.rest == [] then Some(Flat(p.entries)) else None
  }

  predicate NoLineBreak(s: string) {
    '\n' !in s
  }

  /** Every URL and every domain of the listing fits on one line. */
  predicate SingleLines(l: Listing) {
    match l
    case Flat(es) => forall k :: 0 <= k < |es| ==> NoLineBreak(es[k].url)
    case Grouped(gs) =>
      forall g :: 0 <= g < |gs| ==>
        NoLineBreak(gs[g].domain) && forall k :: 0 <= k < |gs[g].entries| ==> NoLineBreak(gs[g].entries[k].url)
  }

  /** Cutting a concatenation at its seams gives back the pieces. */
  lemma Pieces(a: string, b: string, c: string)
    ensures (a + b + c)[..|a|] == a
    ensures (a + b + c)[|a|..|a| + |b|] == b
    ensures (a + b + c)[|a| + |b|..] == c
  {
  }

  lemma Associative(a: string, b: string, c: string)
    ensures (a + b) + c == a + (b + c)
  {
  }

  /** Where the pieces of a rendered entry sit in the text. */
  lemma EntryLayout(ns: string, url: string, rest: string)
    ensures var t := "[" + ns + "] " + url + "\n\n" + rest;
      var L := |ns|;
      var u := |url|;
      && |t| == 5 + L + u + |rest|
      && t[0] == '['
      && (forall q :: 1 <= q < 1 + L ==> t[q] == ns[q - 1])
      && t[1 + L] == ']' && t[2 + L] == ' '
      && (forall q :: 3 + L <= q < 3 + L + u ==> t[q] == url[q - 3 - L])
      && t[3 + L + u] == '\n' && t[4 + L + u] == '\n'
      && t[1..1 + L] == ns && t[3 + L..3 + L + u] == url && t[5 + L + u..] == rest
  {
    var L := |ns|;
    var u := |url|;
    var t := "[" + ns + "] " + url + "\n\n" + rest;
    var front := "[" + ns + "] ";
    assert t == front + (url + ("\n\n" + rest)) by {
      Associative(front + url, "\n\n", rest);
      Associative(front, url, "\n\n" + rest);
    }
    Pieces("[", ns, "] " + url + "\n\n" + rest);
    assert t == "[" + ns + ("] " + url + "\n\n" + rest);
    Pieces(front, url, "\n\n" + rest);
  }

  lemma ReadEntryRoundTrip(e: Entry, rest: string)
    requires NoLineBreak(e.url)
    ensures ReadEntry(EntryText(e) + rest) == Some((e, rest))
  {
    var ns := NatToString(e.number);
    var t := EntryText(e) + rest;
    var L := |ns|;
    var u := |e.url|;
    assert t == "[" + ns + "] " + e.url + "\n\n" + rest;
    EntryLayout(ns, e.url, rest);
    forall q | 1 <= q < 1 + L ensures IsDigit(t[q]) {
      assert t[q] == ns[q - 1];
    }
    var j := RunEnd(t, 1, IsDigit);
    assert j == 1 + L;
    forall q | j + 2 <= q < j + 2 + u ensures t[q] != '\n' {
      assert t[q] == e.url[q - j - 2];
    }
    var k := FindFrom(t, '\n', j + 2);
    assert k == j + 2 + u;
    NatToStringRoundTrip(e.number);
  }

  /** A text that does not start with `[` holds no entry at its front. */
  lemma ReadNoEntry(t: string)
    requires t == [] || t[0] != '['
    ensures ReadEntries(t) == Parsed([], t)
  {
    assert ReadEntry(t) == None;
  }

  lemma ReadEntriesStep(e: Entry, t: string)
    requires NoLineBreak(e.url)
    ensures ReadEntries(EntryText(e) + t) == Parsed([e] + ReadEntries(t).entries, ReadEntries(t).rest)
  {
    ReadEntryRoundTrip(e, t);
  }

  lemma ReadEntriesCons(es: seq<Entry>, rest: string)
    requires |es| > 0 && NoLineBreak(es[0].url)
    requires ReadEntries(EntriesText(es[1..]) + rest) == Parsed(es[1..], rest)
    ensures ReadEntries(EntriesText(es) + rest) == Parsed(es, rest)
  {
    var head := EntryText(es[0]);
    var tail := EntriesText(es[1..]) + rest;
    assert EntriesText(es) + rest == head + tail by {
      assert EntriesText(es) == head + EntriesText(es[1..]);
      Associative(head, EntriesText(es[1..]), rest);
    }
    ReadEntriesStep(es[0], tail);
    assert es == [es[0]] + es[1..];
  }

  lemma {:induction false} ReadEntriesRoundTrip(es: seq<Entry>, rest: string)
    requires forall k :: 0 <= k < |es| ==> NoLineBreak(es[k].url)
    requires rest == [] || rest[0] != '['
    ensures ReadEntries(EntriesText(es) + rest) == Parsed(es, rest)
  {
    if es == [] {
      ReadNoEntry(rest);
    } else {
      ReadEntriesRoundTrip(es[1..], rest);
      ReadEntriesCons(es, rest);
    }
  }

  /** Reading a `### domain` line: where the domain ends and the group body begins. */
  lemma ReadHeader(d: string, body: string)
    requires NoLineBreak(d)
    ensures var t := "### " + d + ("\n\n" + body);
      && |t| >= 4 && t[..4] == "### "
      && FindFrom(t, '\n', 4) == 4 + |d| && 5 + |d| < |t| && t[5 + |d|] == '\n'
      && t[4..4 + |d|] == d && t[6 + |d|..] == body
  {
    var t := "### " + d + ("\n\n" + body);
    var n := |d|;
    Pieces("### ", d, "\n\n" + body);
    forall q | 4 <= q < 4 + n ensures t[q] != '\n' {
      assert t[q] == d[q - 4];
    }
    assert t[4 + n] == '\n' && t[5 + n] == '\n';
    assert t[6 + n..] == body;
  }

  lemma ReadGroupsStep(g: Group, tail: string)
    requires NoLineBreak(g.domain)
    requires forall k :: 0 <= k < |g.entries| ==> NoLineBreak(g.entries[k].url)
    requires tail == [] || tail[0] == '#'
    ensures ReadGroups(GroupText(g) + tail)
         == if ReadGroups(tail).Some? then Some([g] + ReadGroups(tail).value) else None
  {
    var body := EntriesText(g.entries) + tail;
    var t := GroupText(g) + tail;
    assert t == "### " + g.domain + ("\n\n" + body) by {
      Associative("### " + g.domain + "\n\n", EntriesText(g.entries), tail);
      Associative("### " + g.domain, "\n\n", body);
    }
    ReadHeader(g.domain, body);
    ReadEntriesRoundTrip(g.entries, tail);
    assert Group(t[4..4 + |g.domain|], g.entries) == g;
  }

  lemma {:induction false} ReadGroupsRoundTrip(gs: seq<Group>)
    requires SingleLines(Grouped(gs))
    ensures ReadGroups(GroupsText(gs)) == Some(gs)
  {
    if gs != [] {
      var tail := GroupsText(gs[1..]);
      assert SingleLines(Grouped(gs[1..])) by {
        forall a | 0 <= a < |gs[1..]|
          ensures NoLineBreak(gs[1..][a].domain)
            && forall k :: 0 <= k < |gs[1..][a].entries| ==> NoLineBreak(gs[1..][a].entries[k].url)
        {
          assert gs[1..][a] == gs[a + 1];
        }
      }
      ReadGroupsRoundTrip(gs[1..]);
      assert tail == [] || tail[0] == '#';
      ReadGroupsStep(gs[0], tail);
      assert gs == [gs[0]] + gs[1..];
    }
  }

  /** The rendered section reads back as the listing it was rendered from. */
  lemma ReadSectionRoundTrip(l: Listing)
    requires SingleLines(l)
    ensures ReadSection(Heading + ListingText(l), l.Grouped?) == Some(l)
  {
    var t := Heading + ListingText(l);
    assert t[..|Heading|] == Heading;
    assert t[|Heading|..] == ListingText(l);
    match l
    case Flat(es) =>
      ReadEntriesRoundTrip(es, []);
      assert EntriesText(es) + [] == EntriesText(es);
    case Grouped(gs) =>
      ReadGroupsRoundTrip(gs);
  }

  // ------------------------------------------------------------ completeness

  lemma {:induction false} DistinctOnce(xs: seq<Entry>, i: nat)
    requires i < |xs|
    requires forall a, b :: 0 <= a < b < |xs| ==> xs[a] != xs[b]
    ensures multiset(xs)[xs[i]] == 1
  {
    assert xs == [xs[0]] + xs[1..];
    if i == 0 {
      forall q | 0 <= q < |xs[1..]| ensures xs[1..][q] != xs[0] {
        assert xs[1..][q] == xs[q + 1];
      }
      assert xs[0] !in multiset(xs[1..]);
    } else {
      DistinctOnce(xs[1..], i - 1);
      assert xs[1..][i - 1] == xs[i];
    }
  }

  /** Whatever the mode, the listing holds the flat list's entries. */
  lemma ListedAsFlat(r: Registry)
    requires Valid(r)
    ensures multiset(Listed(ListingOf(r))) == multiset(FlatEntries(r.urls))
  {
  }

  /** A permutation of the flat list holds each of its entries once. */
  lemma PermutedFlatOnce(listed: seq<Entry>, urls: seq<string>)
    requires multiset(listed) == multiset(FlatEntries(urls))
    ensures |listed| == |urls|
    ensures forall i :: 0 <= i < |urls| ==> multiset(listed)[Entry(i + 1, urls[i])] == 1
  {
    var flat := FlatEntries(urls);
    assert |listed| == |multiset(listed)| == |flat|;
    forall i | 0 <= i < |urls|
      ensures multiset(listed)[Entry(i + 1, urls[i])] == 1
    {
      DistinctOnce(flat, i);
    }
  }

  /** A permutation of the flat list holds nothing but its entries. */
  lemma PermutedFlatOnly(listed: seq<Entry>, urls: seq<string>)
    requires multiset(listed) == multiset(FlatEntries(urls))
    ensures forall e :: e in listed ==> 1 <= e.number <= |urls| && urls[e.number - 1] == e.url
  {
    var flat := FlatEntries(urls);
    forall e | e in listed
      ensures 1 <= e.number <= |urls| && urls[e.number - 1] == e.url
    {
      assert e in multiset(listed);
      assert e in multiset(flat);
      var i :| 0 <= i < |flat| && flat[i] == e;
    }
  }

  /**
    Whatever the mode, the section lists every registered URL exactly once,
    under its own number, and lists nothing else.
   */
  lemma ReferencesComplete(r: Registry)
    requires Valid(r)
    ensures |Listed(ListingOf(r))| == |r.urls|
    ensures forall i :: 0 <= i < |r.urls| ==> multiset(Listed(ListingOf(r)))[Entry(i + 1, r.urls[i])] == 1
    ensures forall e :: e in Listed(ListingOf(r)) ==> 1 <= e.number <= |r.urls| && r.urls[e.number - 1] == e.url
  {
    ListedAsFlat(r);
    PermutedFlatOnce(Listed(ListingOf(r)), r.urls);
    PermutedFlatOnly(Listed(ListingOf(r)), r.urls);
  }
}
