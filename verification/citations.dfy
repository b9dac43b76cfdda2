/**
  The citation registry shared by the link pass and the raw-URL pass:
  `url_map`, the ordered `urls` list, the `current_url_index` counter and the
  optional `domain_groups` table, threaded functionally through the scans.
 */
module Citations {
  import opened Wrappers
  import opened Urls

  /** One reference: a citation number and the canonical URL it stands for. */
  datatype Entry = Entry(number: nat, url: string)

  /** The references of one host, in first-seen order. */
  datatype Group = Group(domain: string, entries: seq<Entry>)

  /**
    `groups` is `None` when grouping by domain is off (`domain_groups = None`)
    and otherwise the insertion-ordered table of groups.
   */
  datatype Registry = Registry(
    urlMap: map<string, nat>,
    urls: seq<string>,
    next: nat,
    groups: Option<seq<Group>>)

  /** The state before the first scan. */
  function Empty(groupByDomain: bool): (r: Registry)
    ensures Valid(r) && r.urls == [] && r.groups.Some? == groupByDomain
  {
    Registry(map[], [], 1, if groupByDomain then Some([]) else None)
  }

  /** The i-th URL carries number i + 1, the map knows exactly the listed URLs, and the counter is next. */
  ghost predicate Numbered(r: Registry) {
    && r.next == |r.urls| + 1
    && (forall u :: u in r.urlMap <==> u in r.urls)
    && (forall i :: 0 <= i < |r.urls| ==> r.urls[i] in r.urlMap && r.urlMap[r.urls[i]] == i + 1)
  }

  /** The reference list of flat mode: entry i is (i + 1, urls[i]). */
  function FlatEntries(urls: seq<string>): (es: seq<Entry>)
    ensures |es| == |urls|
    ensures forall i :: 0 <= i < |urls| ==> es[i] == Entry(i + 1, urls[i])
  {
    seq(|urls|, i requires 0 <= i < |urls| => Entry(i + 1, urls[i]))
  }

  /** All entries of all groups, group by group. */
  function Flatten(gs: seq<Group>): seq<Entry> {
    if gs == [] then [] else gs[0].entries + Flatten(gs[1..])
  }

  /**
    A group is non-empty, lists only URLs of its own host (as computed by
    `host`) with their numbers, in increasing order.
   */
  ghost predicate GroupWellFormed(urls: seq<string>, g: Group, host: string -> string) {
    && |g.entries| > 0
    && (forall k :: 0 <= k < |g.entries| ==>
          1 <= g.entries[k].number <= |urls|
          && urls[g.entries[k].number - 1] == g.entries[k].url
          && host(g.entries[k].url) == g.domain)
    && (forall k1, k2 :: 0 <= k1 < k2 < |g.entries| ==> g.entries[k1].number < g.entries[k2].number)
  }

  /** No two groups share a domain. */
  ghost predicate DistinctDomains(gs: seq<Group>) {
    forall a, b :: 0 <= a < b < |gs| ==> gs[a].domain != gs[b].domain
  }

  /** Every group is well formed. */
  ghost predicate AllWellFormed(urls: seq<string>, gs: seq<Group>, host: string -> string) {
    forall g :: 0 <= g < |gs| ==> GroupWellFormed(urls, gs[g], host)
  }

  /** Groups appear in the order their host was first seen: by their first entry's number. */
  ghost predicate FirstSeenOrder(gs: seq<Group>)
    requires forall g :: 0 <= g < |gs| ==> |gs[g].entries| > 0
  {
    forall a, b :: 0 <= a < b < |gs| ==> gs[a].entries[0].number < gs[b].entries[0].number
  }

  /**
    The domain groups partition the URL list: distinct hosts, well-formed
    groups, groups in the order their host was first seen, and every
    (number, url) pair in exactly one group.
   */
  ghost predicate Partitioned(urls: seq<string>, gs: seq<Group>, host: string -> string) {
    && DistinctDomains(gs)
    && AllWellFormed(urls, gs, host)
    && FirstSeenOrder(gs)
    && multiset(Flatten(gs)) == multiset(FlatEntries(urls))
  }

  ghost predicate Valid(r: Registry) {
    && Numbered(r)
    && (r.groups.Some? ==> Partitioned(r.urls, r.groups.value, Host))
  }

  /** Position of the group keyed by `d`, or `|gs|` when there is none. */
  function DomainIndex(gs: seq<Group>, d: string): (k: nat)
    ensures k <= |gs|
    ensures k < |gs| ==> gs[k].domain == d
    ensures forall j :: 0 <= j < k ==> gs[j].domain != d
  {
    if gs == [] then 0
    else if gs[0].domain == d then 0
    else 1 + DomainIndex(gs[1..], d)
  }

  /** `domain_groups[d].append(e)`, creating the group at the end on first use. */
  function AddToGroup(gs: seq<Group>, d: string, e: Entry): seq<Group> {
    var k := DomainIndex(gs, d);
    if k < |gs| then gs[k := Group(d, gs[k].entries + [e])] else gs + [Group(d, [e])]
  }

  /**
    Lines 44-54 (and 82-92): a URL not yet in the map gets the counter's
    value, is appended to `urls` and, with grouping on, to its host's group;
    a URL already in the map leaves everything as it was.
   */
  function Register(r: Registry, u: string): (r': Registry)
    ensures u in r'.urlMap
    ensures u in r.urlMap ==> r' == r
    ensures u !in r.urlMap ==> r'.urls == r.urls + [u] && r'.urlMap == r.urlMap[u := r.next]
    ensures r'.groups.Some? == r.groups.Some?
  {
    if u in r.urlMap then r
    else
      Registry(
        r.urlMap[u := r.next],
        r.urls + [u],
        r.next + 1,
        match r.groups
        case None => None
        case Some(gs) => Some(AddToGroup(gs, Host(u), Entry(r.next, u))))
  }

  /** Lines 50-52, first use of a host: a new URL of an unseen host opens a group at the end. */
  lemma RegisterOpensGroup(r: Registry, u: string)
    requires u !in r.urlMap && r.groups.Some?
    requires forall j :: 0 <= j < |r.groups.value| ==> r.groups.value[j].domain != Host(u)
    ensures Register(r, u).groups == Some(r.groups.value + [Group(Host(u), [Entry(r.next, u)])])
  {
    assert DomainIndex(r.groups.value, Host(u)) == |r.groups.value|;
  }

  /** Line 52, later uses of a host: a new URL of a seen host joins the end of that host's group. */
  lemma RegisterJoinsGroup(r: Registry, u: string, k: nat)
    requires u !in r.urlMap && r.groups.Some?
    requires k < |r.groups.value| && r.groups.value[k].domain == Host(u)
    requires forall j :: 0 <= j < k ==> r.groups.value[j].domain != Host(u)
    ensures Register(r, u).groups
         == Some(r.groups.value[k := Group(Host(u), r.groups.value[k].entries + [Entry(r.next, u)])])
  {
    assert DomainIndex(r.groups.value, Host(u)) == k;
  }

  /** The registry after citing a URL, and the number the URL is cited by. */
  datatype Cited = Cited(registry: Registry, number: nat)

  /**
    Cut the URL at `#`, register it, and return the number it now carries:
    the number it already had, or the next one when it is new.
   */
  function Cite(r: Registry, url: string): (c: Cited)
    ensures c.registry == Register(r, Canon(url))
    ensures Canon(url) in r.urlMap ==> c.number == r.urlMap[Canon(url)]
    ensures Canon(url) !in r.urlMap ==> c.number == r.next
  {
    var r' := Register(r, Canon(url));
    Cited(r', r'.urlMap[Canon(url)])
  }

  /**
    Citing a URL whose part before `#` equals that of a URL already cited
    gives it the same number and leaves the registry as it was.
   */
  lemma CiteSameKey(r: Registry, a: string, b: string)
    requires Canon(a) == Canon(b)
    ensures Cite(Cite(r, a).registry, b) == Cite(r, a)
  {
  }

  /** Register a sequence of keys from left to right. */
  function RegisterAll(r: Registry, keys: seq<string>): Registry
    decreases |keys|
  {
    if keys == [] then r else RegisterAll(Register(r, keys[0]), keys[1..])
  }

  // ---------------------------------------------------------------- lemmas

  lemma {:induction false} FlattenAppend(gs: seq<Group>, g: Group)
    ensures Flatten(gs + [g]) == Flatten(gs) + g.entries
    decreases |gs|
  {
    if gs != [] {
      assert (gs + [g])[1..] == gs[1..] + [g];
      FlattenAppend(gs[1..], g);
    }
  }

  lemma {:induction false} FlattenUpdate(gs: seq<Group>, k: nat, g: Group, e: Entry)
    requires k < |gs| && g.entries == gs[k].entries + [e]
    ensures multiset(Flatten(gs[k := g])) == multiset(Flatten(gs)) + multiset{e}
    decreases k
  {
    if k == 0 {
      assert gs[k := g][1..] == gs[1..];
    } else {
      assert gs[k := g][1..] == gs[1..][k - 1 := g];
      FlattenUpdate(gs[1..], k - 1, g, e);
    }
  }

  /*
    The partition lemmas below are stated for any grouping-key function
    `host`; the registry uses them with `Host`.
   */

  /** Old groups stay well formed when a URL is appended to the list. */
  lemma GroupsGrow(urls: seq<string>, gs: seq<Group>, u: string, host: string -> string)
    requires AllWellFormed(urls, gs, host)
    ensures AllWellFormed(urls + [u], gs, host)
    ensures forall g, k :: 0 <= g < |gs| && 0 <= k < |gs[g].entries| ==> gs[g].entries[k].number <= |urls|
  {
    forall g | 0 <= g < |gs|
      ensures GroupWellFormed(urls + [u], gs[g], host)
      ensures forall k :: 0 <= k < |gs[g].entries| ==> gs[g].entries[k].number <= |urls|
    {
      assert GroupWellFormed(urls, gs[g], host);
    }
  }

  lemma ExistingGroupWellFormed(urls: seq<string>, gs: seq<Group>, u: string, k: nat, host: string -> string)
    requires AllWellFormed(urls, gs, host)
    requires k < |gs| && gs[k].domain == host(u)
    ensures AllWellFormed(urls + [u], gs[k := Group(host(u), gs[k].entries + [Entry(|urls| + 1, u)])], host)
  {
    var urls' := urls + [u];
    var g' := Group(host(u), gs[k].entries + [Entry(|urls| + 1, u)]);
    GroupsGrow(urls, gs, u, host);
    assert GroupWellFormed(urls', g', host) by {
      assert GroupWellFormed(urls', gs[k], host);
      assert urls'[|urls|] == u;
    }
  }

  lemma ExistingGroupFlatten(urls: seq<string>, gs: seq<Group>, u: string, k: nat, d: string)
    requires multiset(Flatten(gs)) == multiset(FlatEntries(urls))
    requires k < |gs|
    ensures multiset(Flatten(gs[k := Group(d, gs[k].entries + [Entry(|urls| + 1, u)])]))
         == multiset(FlatEntries(urls + [u]))
  {
    var e := Entry(|urls| + 1, u);
    assert FlatEntries(urls + [u]) == FlatEntries(urls) + [e];
    FlattenUpdate(gs, k, Group(d, gs[k].entries + [e]), e);
  }

  lemma AppendToExistingGroup(urls: seq<string>, gs: seq<Group>, u: string, k: nat, host: string -> string)
    requires Partitioned(urls, gs, host)
    requires k < |gs| && gs[k].domain == host(u)
    ensures Partitioned(urls + [u], gs[k := Group(host(u), gs[k].entries + [Entry(|urls| + 1, u)])], host)
  {
    var gs' := gs[k := Group(host(u), gs[k].entries + [Entry(|urls| + 1, u)])];
    assert AllWellFormed(urls + [u], gs', host) by {
      ExistingGroupWellFormed(urls, gs, u, k, host);
    }
    assert multiset(Flatten(gs')) == multiset(FlatEntries(urls + [u])) by {
      ExistingGroupFlatten(urls, gs, u, k, host(u));
    }
    ExistingGroupOrder(gs, k, Group(host(u), gs[k].entries + [Entry(|urls| + 1, u)]));
  }

  /** Extending one group in place keeps the domains distinct and the group order. */
  lemma ExistingGroupOrder(gs: seq<Group>, k: nat, g: Group)
    requires k < |gs| && g.domain == gs[k].domain && |gs[k].entries| > 0
    requires |g.entries| > |gs[k].entries| && g.entries[..|gs[k].entries|] == gs[k].entries
    requires forall j :: 0 <= j < |gs| ==> |gs[j].entries| > 0
    requires DistinctDomains(gs) && FirstSeenOrder(gs)
    ensures DistinctDomains(gs[k := g])
    ensures FirstSeenOrder(gs[k := g])
  {
    assert g.entries[0] == gs[k].entries[0];
    assert forall j :: 0 <= j < |gs| ==> gs[k := g][j].entries[0] == gs[j].entries[0];
  }

  lemma NewGroupWellFormed(urls: seq<string>, gs: seq<Group>, u: string, host: string -> string)
    requires AllWellFormed(urls, gs, host)
    ensures AllWellFormed(urls + [u], gs + [Group(host(u), [Entry(|urls| + 1, u)])], host)
    ensures forall g :: 0 <= g < |gs| ==> gs[g].entries[0].number < |urls| + 1
  {
    GroupsGrow(urls, gs, u, host);
    assert (urls + [u])[|urls|] == u;
  }

  lemma NewGroupFlatten(urls: seq<string>, gs: seq<Group>, u: string, d: string)
    requires multiset(Flatten(gs)) == multiset(FlatEntries(urls))
    ensures multiset(Flatten(gs + [Group(d, [Entry(|urls| + 1, u)])])) == multiset(FlatEntries(urls + [u]))
  {
    var e := Entry(|urls| + 1, u);
    assert FlatEntries(urls + [u]) == FlatEntries(urls) + [e];
    FlattenAppend(gs, Group(d, [e]));
  }

  lemma StartNewGroup(urls: seq<string>, gs: seq<Group>, u: string, host: string -> string)
    requires Partitioned(urls, gs, host)
    requires forall j :: 0 <= j < |gs| ==> gs[j].domain != host(u)
    ensures Partitioned(urls + [u], gs + [Group(host(u), [Entry(|urls| + 1, u)])], host)
  {
    var gs' := gs + [Group(host(u), [Entry(|urls| + 1, u)])];
    NewGroupWellFormed(urls, gs, u, host);
    assert multiset(Flatten(gs')) == multiset(FlatEntries(urls + [u])) by {
      NewGroupFlatten(urls, gs, u, host(u));
    }
    assert DistinctDomains(gs') by {
      assert DistinctDomains(gs);
    }
    assert FirstSeenOrder(gs') by {
      assert FirstSeenOrder(gs);
    }
  }

  /** Adding a fresh entry to its host's group keeps the groups a partition. */
  lemma AddToGroupPartitioned(urls: seq<string>, gs: seq<Group>, u: string, host: string -> string)
    requires Partitioned(urls, gs, host)
    ensures Partitioned(urls + [u], AddToGroup(gs, host(u), Entry(|urls| + 1, u)), host)
  {
    var k := DomainIndex(gs, host(u));
    if k < |gs| {
      AppendToExistingGroup(urls, gs, u, k, host);
    } else {
      StartNewGroup(urls, gs, u, host);
    }
  }

  /** A new URL takes the counter's value, which is its position in the list. */
  lemma RegisterNumbered(r: Registry, u: string)
    requires Numbered(r)
    ensures Numbered(Register(r, u))
  {
    if u !in r.urlMap {
      var r' := Register(r, u);
      assert r'.urls[|r.urls|] == u;
    }
  }

  /** With grouping on, registering keeps the groups a partition of the URL list. */
  lemma RegisterPartitioned(r: Registry, u: string)
    requires r.groups.Some? && r.next == |r.urls| + 1
    requires Partitioned(r.urls, r.groups.value, Host)
    ensures Register(r, u).groups.Some?
    ensures Partitioned(Register(r, u).urls, Register(r, u).groups.value, Host)
  {
    if u !in r.urlMap {
      AddToGroupPartitioned(r.urls, r.groups.value, u, Host);
      assert Register(r, u).groups.value == AddToGroup(r.groups.value, Host(u), Entry(|r.urls| + 1, u));
    }
  }

  /** Registering keeps the registry invariant. */
  lemma RegisterValid(r: Registry, u: string)
    requires Valid(r)
    ensures Valid(Register(r, u))
  {
    RegisterNumbered(r, u);
    if r.groups.Some? {
      RegisterPartitioned(r, u);
    }
  }

  lemma {:induction false} RegisterAllNumbered(r: Registry, keys: seq<string>)
    requires Numbered(r)
    ensures Numbered(RegisterAll(r, keys))
    decreases |keys|
  {
    if keys != [] {
      RegisterNumbered(r, keys[0]);
      RegisterAllNumbered(Register(r, keys[0]), keys[1..]);
    }
  }

  /** Keys once numbered keep their number. */
  lemma {:induction false} RegisterAllExtends(r: Registry, keys: seq<string>)
    ensures forall u :: u in r.urlMap ==> u in RegisterAll(r, keys).urlMap && RegisterAll(r, keys).urlMap[u] == r.urlMap[u]
    ensures forall k :: k in keys ==> k in RegisterAll(r, keys).urlMap
    ensures RegisterAll(r, keys).groups.Some? == r.groups.Some?
    decreases |keys|
  {
    if keys != [] {
      RegisterAllExtends(Register(r, keys[0]), keys[1..]);
      assert forall k :: k in keys ==> k == keys[0] || k in keys[1..];
    }
  }

  lemma {:induction false} RegisterAllValid(r: Registry, keys: seq<string>)
    requires Valid(r)
    ensures Valid(RegisterAll(r, keys))
    decreases |keys|
  {
    if keys != [] {
      RegisterValid(r, keys[0]);
      RegisterAllValid(Register(r, keys[0]), keys[1..]);
    }
  }

  lemma {:induction false} RegisterAllAppend(r: Registry, a: seq<string>, b: seq<string>)
    ensures RegisterAll(r, a + b) == RegisterAll(RegisterAll(r, a), b)
    decreases |a|
  {
    if a == [] {
      assert a + b == b;
    } else {
      assert (a + b)[0] == a[0];
      assert (a + b)[1..] == a[1..] + b;
      RegisterAllAppend(Register(r, a[0]), a[1..], b);
    }
  }

  /** Index of the first occurrence of `x` in `xs`. */
  function FirstIndex(xs: seq<string>, x: string): (i: nat)
    requires x in xs
    ensures i < |xs| && xs[i] == x
    ensures forall j :: 0 <= j < i ==> xs[j] != x
  {
    if xs[0] == x then 0 else 1 + FirstIndex(xs[1..], x)
  }

  lemma FirstIndexPrefix(xs: seq<string>, y: string, x: string)
    requires x in xs
    ensures x in xs + [y] && FirstIndex(xs + [y], x) == FirstIndex(xs, x)
  {
    var i := FirstIndex(xs, x);
    var j := FirstIndex(xs + [y], x);
    assert (xs + [y])[i] == x;
    assert j <= i;
    assert xs[j] == (xs + [y])[j];
  }

  /** `urls` holds exactly the keys, ordered by where each key first occurs. */
  ghost predicate InFirstSeenOrder(urls: seq<string>, keys: seq<string>) {
    && (forall u :: u in urls <==> u in keys)
    && (forall a, b :: 0 <= a < b < |urls| ==> FirstIndex(keys, urls[a]) < FirstIndex(keys, urls[b]))
  }

  lemma FirstSeenStep(r0: Registry, front: seq<string>, last: string)
    requires Numbered(r0) && InFirstSeenOrder(r0.urls, front)
    ensures InFirstSeenOrder(Register(r0, last).urls, front + [last])
  {
    var keys := front + [last];
    var r := Register(r0, last);
    forall u | u in front
      ensures FirstIndex(keys, u) == FirstIndex(front, u)
    {
      FirstIndexPrefix(front, last, u);
    }
    if last !in r0.urlMap {
      assert last !in front;
      assert FirstIndex(keys, last) == |front|;
      forall a, b | 0 <= a < b < |r.urls|
        ensures FirstIndex(keys, r.urls[a]) < FirstIndex(keys, r.urls[b])
      {
        assert r.urls[a] == r0.urls[a] && r.urls[a] in front;
        if b < |r0.urls| {
          assert r.urls[b] == r0.urls[b] && r.urls[b] in front;
        }
      }
    }
  }

  /**
    Registering keys into an empty registry lists each distinct key once, in
    the order of its first occurrence, and numbers it by that rank.
   */
  lemma {:induction false} RegisterAllFirstSeen(g: bool, keys: seq<string>)
    ensures Numbered(RegisterAll(Empty(g), keys))
    ensures InFirstSeenOrder(RegisterAll(Empty(g), keys).urls, keys)
    decreases |keys|
  {
    RegisterAllNumbered(Empty(g), keys);
    if keys != [] {
      var front := keys[..|keys| - 1];
      var last := keys[|keys| - 1];
      assert keys == front + [last];
      RegisterAllFirstSeen(g, front);
      RegisterAllAppend(Empty(g), front, [last]);
      var r0 := RegisterAll(Empty(g), front);
      assert RegisterAll(r0, [last]) == Register(r0, last);
      FirstSeenStep(r0, front, last);
    }
  }

  /** `urls` never holds a URL twice. */
  lemma NoDuplicates(r: Registry)
    requires Numbered(r)
    ensures forall i, j :: 0 <= i < j < |r.urls| ==> r.urls[i] != r.urls[j]
  {
  }

  /** The number of a registered URL is its 1-based position in `urls`. */
  lemma NumberIsPosition(r: Registry, u: string)
    requires Numbered(r) && u in r.urlMap
    ensures 1 <= r.urlMap[u] <= |r.urls| && r.urls[r.urlMap[u] - 1] == u
  {
    var i :| 0 <= i < |r.urls| && r.urls[i] == u;
  }

  /** A list without repetitions has as many elements as its set. */
  lemma {:induction false} DistinctCardinality(xs: seq<string>)
    requires forall i, j :: 0 <= i < j < |xs| ==> xs[i] != xs[j]
    ensures |set x | x in xs| == |xs|
    decreases |xs|
  {
    if xs != [] {
      var front := xs[..|xs| - 1];
      DistinctCardinality(front);
      assert (set x | x in xs) == (set x | x in front) + {xs[|xs| - 1]};
      assert xs[|xs| - 1] !in front;
    }
  }

  /** The counter's final value minus one is the number of distinct keys registered. */
  lemma CountIsDistinctKeys(g: bool, keys: seq<string>)
    ensures |RegisterAll(Empty(g), keys).urls| == |set k | k in keys|
  {
    var r := RegisterAll(Empty(g), keys);
    RegisterAllFirstSeen(g, keys);
    NoDuplicates(r);
    DistinctCardinality(r.urls);
    assert (set x | x in r.urls) == (set k | k in keys);
  }
}
