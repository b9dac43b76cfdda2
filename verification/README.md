# Citation rewriter model

A Dafny model of `process_markdown_file` from `rag_optimizer.py`, modelled as a
pure function from document text to rewritten text. It covers the transformation
only; file I/O is out. The function does four things, in this order:

1. **Strip domain prefixes (optional).** When `keep_domain_names` is false,
   every `host.tld[digits]` marker becomes `[digits]`.
2. **Rewrite Markdown links.** Every `[text](url)` becomes `text[n]`.
3. **Rewrite raw URLs.** Every bare `http://…` or `https://…` that does not
   follow `(` becomes `[n]`.
4. **Append references.** A `## References` section is appended. It is a flat
   list, or one `### host` block per domain when `group_by_domain` is on.

`n` is the citation number of the URL. It is assigned the first time the URL is
seen, after the URL has been cut at its first `#`, which drops the fragment
(section 3.5 of RFC 3986). Stages 2 and 3 share one registry. The registry holds
`url_map`, the ordered `urls` list, the counter and the optional domain groups.
The function returns the rewritten text and `len(urls)`. Stage 3 scans the
output of stage 2, so its raw URLs are read from text that already holds the
link markers.

## Modules

| file | module | contents |
|---|---|---|
| `wrappers.dfy` | `Wrappers` | `Option` |
| `text.dfy` | `Text` | the character classes of the three patterns; decimal rendering of numbers, with its round trip |
| `urls.dfy` | `Urls` | the dedup key `Canon` (the URL cut at `#`); `Host`, a simplified `urlparse(u).netloc` |
| `citations.dfy` | `Citations` | the registry and the registration step; the invariants `Numbered` (dense, 1-based, first-seen numbering) and `Partitioned` (the domain groups partition the URL list) |
| `patterns.dfy` | `Patterns` | each regular expression as a match function at a fixed position; a completeness lemma for each |
| `scanning.dfy` | `Scanning` | `re.sub` as a search for leftmost, non-overlapping matches (`Scan`); its declarative characterisation (`Leftmost`); `Splice`, which replaces the spans and copies the rest |
| `passes.dfy` | `Passes` | the three rewriting passes; each is proved equal to `Splice` over its `Scan`, with the registry equal to registering the matched keys in order |
| `references.dfy` | `References` | rendering of the references section; a reader that recovers the listing from the rendered text; completeness of the listing |
| `optimizer.dfy` | `Optimizer` | the whole transformation and its end-to-end theorems |
| `scenarios.dfy` | `Scenarios` | small documents: fragment variants; the order of the domain groups; a link whose text is its own URL, counted twice without a fragment and once with one |

### How the regular expressions are modelled

Each pattern can match in at most one way at a given start position, so each
becomes a function `XAt(s, p)`:

- **Citation pattern (line 33).** The host group is the maximal run of
  `[a-zA-Z0-9.-]`, because `[` cannot belong to it. The run must end in a dot
  followed by two or more letters.
- **Link pattern (line 32).** The text runs up to the first `]` and the URL up to
  the first `)`. Neither may be empty.
- **Raw-URL pattern (line 72).** The greedy `[^\s]+` runs to the next whitespace
  or to the end of the text. At that point the look-ahead `(?!\))` always
  succeeds. A `)` right after a URL is therefore taken into the match, so
  `(see https://a.com)` registers `https://a.com)`. The look-behind `(?<!\()` is
  the only test that ever rejects a match.

`\s` is the full set of characters for which Python's `str.isspace` holds.

### Behaviour of the code worth knowing

- **A raw URL followed by `)` is not excluded.** The look-ahead `(?!\))` sits
  after a greedy `[^\s]+`, so it always succeeds; see the raw-URL pattern above.
- **Stage 3 reads the output of stage 2, not the input document.** A link whose
  text is a URL shows the consequence. `[https://a.com/p](https://a.com/p)`
  becomes `https://a.com/p[1]` in stage 2. Stage 3 then matches the whole of
  `https://a.com/p[1]`, because `[^\s]+` takes in the marker, registers it as
  URL number 2 and replaces it by `[2]`. The body is `[2]`, the section lists
  `[1] https://a.com/p`, which no marker in the body refers to, and
  `[2] https://a.com/p[1]`, and the count is 2 for one URL
  (`Scenarios.SelfLinkCountedTwice`). The same happens whenever a link's text
  ends in a web URL that holds no `#` and is not preceded by `(`. When that
  URL holds `#`, the marker is still taken into the raw match, but the key is
  the part before `#`. If that part is already registered, it gets its
  existing number: `[u#f](u)` gives the body `[1]`, one URL and the count 1
  (`Scenarios.FragmentLinkCountedOnce`).
- **Not every `[n]` in the body has an entry.** `[digits]` markers left by
  stage 1, and bracketed numbers already in the text, are copied as they are.
  What does hold:
  - every number that stages 2 and 3 emit has exactly one entry
    (`Optimizer.CitedUrlsListed`);
  - every entry lists a key collected by stage 2 from the document's links or
    by stage 3 from the stage-2 output (`Optimizer.FinalRegistryValid`).
- **With grouping on, `urlparse` can raise.** `ValueError` from `urlparse`
  (see `Urls.Host` under "Left out") is not caught, so it aborts the whole of
  `process_markdown_file`. The model always returns.

## Model

| member | source | states |
|---|---|---|
| `Text.NatToStringRoundTrip` | rag_optimizer.py:57 | the digits written inside a `[n]` marker read back as `n` |
| `Text.NatToStringInjective` | rag_optimizer.py:95 | distinct citation numbers render as distinct markers |
| `Text.NatToString` | rag_optimizer.py:57 | the decimal rendering inside `f"[{n}]"`: non-empty, digits only, no leading zero except for 0; `Text.NatToStringRoundTrip` reads it back |
| `Urls.Canon` | rag_optimizer.py:41 | the dedup key is a prefix of the URL and holds no `#`; when it is shorter than the URL, the URL continues with `#` there, so the cut is at the first `#` |
| `Urls.CanonDropsFragment` | rag_optimizer.py:79 | a URL without `#` is its own key, and appending `#` and any fragment leaves the key unchanged |
| `Urls.CanonIdempotent` | rag_optimizer.py:41 | cutting a key a second time changes nothing |
| `Urls.Host` | rag_optimizer.py:49 | the domain key never holds `/`, `?` or `#` |
| `Urls.HostOfAuthority` | rag_optimizer.py:87 | the domain of `scheme://host` followed by a path, query or fragment (or nothing) is exactly `host` |
| `Urls.HostWithoutAuthority` | rag_optimizer.py:49 | a URL with no `//` after its scheme has the empty domain |
| `Citations.Empty` | rag_optimizer.py:25-28 | the initial registry is empty and satisfies the invariant; it has a group table exactly when grouping is on |
| `Citations.Register` | rag_optimizer.py:44-54 | a key already in the map leaves the whole registry unchanged; a new key is appended to `urls` and mapped to the counter's value; the key is in the map afterwards, and grouping stays on or off |
| `Citations.AddToGroup` | rag_optimizer.py:50-52 | `domain_groups[domain].append(...)`, opening the group at the end on first use; its meaning is given by `Citations.RegisterOpensGroup`, `Citations.RegisterJoinsGroup` and `Citations.AddToGroupPartitioned` |
| `Citations.Cite` | rag_optimizer.py:36-57 | a link or raw URL is registered under its key; the number returned is the key's existing number, or the counter's value when the key is new |
| `Citations.CiteSameKey` | rag_optimizer.py:41-45 | citing a second URL with the same key as an earlier one returns the same number and changes nothing |
| `Citations.RegisterOpensGroup` | rag_optimizer.py:48-52 | a new URL whose host has no group yet opens a one-entry group at the end of the table |
| `Citations.RegisterJoinsGroup` | rag_optimizer.py:48-52 | a new URL whose host already has a group is appended, with its number, to the end of that group only |
| `Citations.AddToGroupPartitioned` | rag_optimizer.py:48-52 | appending the new pair (number, URL) to its host's group keeps the table a partition of the URL list |
| `Citations.RegisterNumbered` | rag_optimizer.py:44-54 | one registration preserves the numbering: counter = `len(urls)+1`, and `url_map[urls[i]] = i+1` |
| `Citations.RegisterValid` | rag_optimizer.py:82-92 | one registration preserves the numbering and, with grouping on, the partition |
| `Citations.RegisterAllValid` | rag_optimizer.py:44-54 | any sequence of registrations preserves the numbering and the partition |
| `Citations.RegisterAllExtends` | rag_optimizer.py:44-46 | a number, once given, is never changed; every registered key ends up in the map |
| `Citations.RegisterAllAppend` | rag_optimizer.py:82-92 | registering one key sequence, then another, equals registering their concatenation |
| `Citations.RegisterAllFirstSeen` | rag_optimizer.py:44-54 | from the empty registry, `urls` is exactly the distinct keys, ordered by first occurrence |
| `Citations.NoDuplicates` | rag_optimizer.py:44-46 | under the numbering invariant, `urls` holds no URL twice |
| `Citations.NumberIsPosition` | rag_optimizer.py:45-46 | a registered URL's number is its 1-based position in `urls` |
| `Citations.CountIsDistinctKeys` | rag_optimizer.py:117 | after registering a key sequence from empty, `len(urls)` is the number of distinct keys in it |
| `Patterns.CitationAt` | rag_optimizer.py:33 | a citation match spans a host-like name (ending in a dot and two or more letters), `[`, one or more digits, `]` |
| `Patterns.CitationAtComplete` | rag_optimizer.py:33 | every host-like name followed by bracketed digits is found at its start position |
| `Patterns.HostLikeIff` | rag_optimizer.py:33 | the trailing-letters test accepts exactly the names the host group of the pattern can match |
| `Patterns.LinkAt` | rag_optimizer.py:32 | a link match spans `[text](url)`, where `text` is non-empty without `]` and `url` is non-empty without `)` |
| `Patterns.LinkAtComplete` | rag_optimizer.py:32 | every such `[text](url)` is found at its start with exactly these captures |
| `Patterns.RawUrlAt` | rag_optimizer.py:72 | a raw match does not follow `(`, is a web URL, and ends at whitespace or at the end of the text, so never before `)` |
| `Patterns.RawUrlAtComplete` | rag_optimizer.py:72 | every web URL that does not follow `(` and runs to whitespace or to the end of the text is found |
| `Scanning.Scan` | rag_optimizer.py:66 | the spans the search reports lie inside the text, in order, without overlap |
| `Scanning.ScanIsLeftmost` | rag_optimizer.py:69 | every reported span is a match, and no position outside the spans starts a match |
| `Scanning.LeftmostIsScan` | rag_optimizer.py:97 | any span list with that leftmost shape is the one the search reports |
| `Scanning.SpliceOriginals` | rag_optimizer.py:69 | only spans change: putting back the covered texts restores the input |
| `Passes.StripDomainPrefixes` | rag_optimizer.py:60-66 | stage 1 never lengthens the text |
| `Passes.Marker` | rag_optimizer.py:57 | the `[n]` marker both passes emit; its digits read back as `n` (`Text.NatToStringRoundTrip`), and it is what `Passes.LinkKeepsText` and `Passes.RawUrlBecomesMarker` show each match becoming |
| `Passes.StripDomainPrefixesSplices` | rag_optimizer.py:60-66 | stage 1 replaces exactly the leftmost citation matches and copies every other character |
| `Passes.StripKeepsDigits` | rag_optimizer.py:61-64 | each stage-1 match is a host-like name followed by its replacement: the host goes, the bracketed digits stay unchanged |
| `Passes.RewriteLinks` | rag_optimizer.py:69 | stage 2 keeps every number the registry already had, and grouping stays on or off |
| `Passes.RewriteLinksSplices` | rag_optimizer.py:36-57 | stage 2 registers the keys of the leftmost link matches in order, replaces exactly those matches, and copies the rest |
| `Passes.LinkKeepsText` | rag_optimizer.py:57 | each link match `[text](url)` becomes `text` verbatim, then the number of the URL's key; the URL and its parentheses are gone |
| `Passes.RewriteRawUrls` | rag_optimizer.py:97 | stage 3 keeps every number the registry already had |
| `Passes.RewriteRawUrlsSplices` | rag_optimizer.py:74-97 | stage 3 registers the keys of the leftmost raw-URL matches in order, replaces exactly those matches, and copies the rest |
| `Passes.RawUrlBecomesMarker` | rag_optimizer.py:95 | each raw match is a whole web URL that does not follow `(`; it becomes the bare `[n]` for its key |
| `Passes.ParenthesisedUrlNotRewritten` | rag_optimizer.py:72 | no rewritten raw URL starts right after `(` |
| `References.ReadEntryRoundTrip` | rag_optimizer.py:111 | an entry line `[n] url` and its blank line read back as `(n, url)` when the URL holds no line break |
| `References.ReadGroupsRoundTrip` | rag_optimizer.py:104-107 | when no domain or URL holds a line break, the rendered `### host` blocks read back as the same groups, with the same entries, in the same order |
| `References.ReadSectionRoundTrip` | rag_optimizer.py:100-111 | the rendered section, heading included, reads back as the listing it was rendered from, in either mode |
| `References.ReferenceSection` | rag_optimizer.py:100-111 | the appended section: the heading, then the flat list or the domain groups; `References.ReadSectionRoundTrip` reads it back as the listing and `References.ReferencesComplete` shows that listing holds each URL once |
| `References.ReferencesComplete` | rag_optimizer.py:102-111 | under the registry invariant, the section lists every registered URL exactly once, under its number, and nothing else, in either mode |
| `Optimizer.ProcessMarkdown` | rag_optimizer.py:117 | the returned count is the number of distinct keys among the link URLs of the (stripped) document and the raw URLs of the stage-2 output, which is where stage 3 looks for them |
| `Optimizer.Stripped` | rag_optimizer.py:60-66 | stage 1, skipped when domain names are kept; described by `Passes.StripDomainPrefixesSplices` and `Optimizer.OutputShape` |
| `Optimizer.Linked` | rag_optimizer.py:69 | stage 2 on a fresh registry; described by `Passes.RewriteLinksSplices` and `Optimizer.OutputShape` |
| `Optimizer.Body` | rag_optimizer.py:72-97 | stage 3 on the text and registry stage 2 left; described by `Passes.RewriteRawUrlsSplices` and `Optimizer.OutputShape` |
| `Optimizer.RegistryFromCitedKeys` | rag_optimizer.py:69-97 | the final registry is the result of registering every link key, then every raw-URL key, in document order |
| `Optimizer.FinalRegistryValid` | rag_optimizer.py:24-97 | the final registry is numbered and, with grouping on, partitioned; it lists the cited keys in first-seen order and holds no URL with a fragment |
| `Optimizer.CitedKeysUnfragmented` | rag_optimizer.py:79 | no key collected by either pass contains `#` |
| `Optimizer.OutputShape` | rag_optimizer.py:60-100 | the output is stage 1 (or the document unchanged), then stage 2, then stage 3, each as replacement of its leftmost matches, followed by the references section; all numbers are the final ones |
| `Optimizer.CitedUrlsListed` | rag_optimizer.py:95 | every cited key's number lies between 1 and the returned count, and the section lists that (number, URL) pair exactly once |
| `Optimizer.ReferencesReadBack` | rag_optimizer.py:100-117 | the body is a prefix of the output, and the rest reads back as the listing, one entry per counted URL |
| `Optimizer.LinkNumbersKept` | rag_optimizer.py:82-95 | a URL numbered in stage 2 keeps that number in stage 3, so a raw repeat of a link reuses it |
| `Scenarios.FragmentVariantsShareNumber` | rag_optimizer.py:41-57 | `base#fragment` followed by `base` yields one URL, numbered 1 both times |
| `Scenarios.GroupsInFirstSeenOrder` | rag_optimizer.py:48-52 | for three URLs where the first and third share a host, that host's group comes first with numbers 1 and 3, and the other group holds 2 |
| `Scenarios.SelfLinkCountedTwice` | rag_optimizer.py:57-97 | for any web URL `u` without `#`, `]` or `)`, `[u](u)` gives the body `[2]`, the URL list `[u, u[1]]` and the count 2 |
| `Scenarios.FragmentLinkCountedOnce` | rag_optimizer.py:57-97 | for a web URL `u` without `#`, `]` or `)` and a fragment `f` without `]` or whitespace, `[u#f](u)` gives the body `[1]`, the URL list `[u]` and the count 1 |

## Left out

- **File I/O.** Reading the input file and writing the output (lines 21-22 and
  114-115). The model takes and returns strings.
- **The command-line wrapper.** `argparse`, the existence check, `sys.exit` and
  the printed summary (lines 119-140) are process plumbing.
- **`app.py` and `setup.py`.** The web UI, token counting through an external
  tokenizer, floating-point percentages and packaging metadata are not part of
  this model.
- **`Urls.Host`.** This is a simplification of `urlparse(u).netloc`. It keeps
  the Python 3.9+ scheme rule and the authority up to `/`, `?` or `#`. It does
  not model:
  - the `ValueError` for malformed IPv6 brackets;
  - the stripping of leading C0 control characters and spaces;
  - the removal of tab, CR and LF characters;
  - the `ValueError` that `_checknetloc` raises when the NFKC form of a
    non-ASCII netloc holds one of `/`, `?`, `#`, `@` or `:`.

  With grouping on, either `ValueError` aborts the whole of
  `process_markdown_file`; the model returns normally on every input.
- **`\d`.** It is ASCII `0-9` only. Python's `\d` on `str` also accepts other
  Unicode decimal digits.
- **`References.ReadGroupsRoundTrip`**, **`References.ReadSectionRoundTrip`** and
  **`Optimizer.ReferencesReadBack`.** All three require that no listed URL or domain
  holds a line break. Link URLs may hold one, since `[^)]+` accepts newlines.
  With a line break, the rendered section cannot be told apart from the entry
  separator. The rendering itself is modelled for all inputs.
- **The regex engine.** The pattern functions are hand-written matchers. Their
  agreement with Python's `re` rests on the arguments stated at each of them
  (the unique match at a start position) and is not derived from a formal
  semantics of regular expressions.
