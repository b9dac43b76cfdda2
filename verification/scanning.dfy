/**
  What `re.sub` does with a pattern, independently of the replacement: it
  picks the leftmost match, resumes after it, and so on (`Scan`); a match
  set with that shape is characterised declaratively by `Leftmost`; and the
  rewritten text replaces exactly those spans and copies the rest (`Splice`).
 */
module Scanning {
  import opened Wrappers
  import opened Patterns

  /**
    A matcher says whether its pattern matches at a position and where that
    match ends. The search below works for any matcher whose matches are
    non-empty and inside the text.
   */
  type Matcher = (string, nat) -> Option<nat>

  ghost predicate Advances(m: Matcher) {
    forall s: string, p: nat :: m(s, p).Some? ==> p < m(s, p).value <= |s|
  }

  /** End of the `([a-zA-Z0-9.-]+\.[a-zA-Z]{2,})\[(\d+)\]` match at `p`. */
  function CitationEnd(s: string, p: nat): (r: Option<nat>)
    ensures r.Some? ==> p < r.value <= |s|
  {
    match CitationAt(s, p) case Some(m) => Some(m.end) case None => None
  }

  /** End of the `\[([^\]]+)\]\(([^)]+)\)` match at `p`. */
  function LinkEnd(s: string, p: nat): (r: Option<nat>)
    ensures r.Some? ==> p < r.value <= |s|
  {
    match LinkAt(s, p) case Some(m) => Some(m.end) case None => None
  }

  /** End of the `(?<!\()(https?://[^\s]+)(?!\))` match at `p`. */
  function RawUrlEnd(s: string, p: nat): (r: Option<nat>)
    ensures r.Some? ==> p < r.value <= |s|
  {
    match RawUrlAt(s, p) case Some(m) => Some(m.end) case None => None
  }

  lemma MatchersAdvance()
    ensures Advances(CitationEnd) && Advances(LinkEnd) && Advances(RawUrlEnd)
  {
  }

  /** A half-open range `[start, end)` of positions in the scanned text. */
  datatype Span = Span(start: nat, end: nat)

  /** The spans lie in `[i, n)`, in order, without overlapping. */
  ghost predicate Placed(spans: seq<Span>, i: nat, n: nat) {
    && (forall k :: 0 <= k < |spans| ==> i <= spans[k].start <= spans[k].end <= n)
    && (forall k1, k2 :: 0 <= k1 < k2 < |spans| ==> spans[k1].end <= spans[k2].start)
  }

  ghost predicate Covered(spans: seq<Span>, p: nat) {
    exists k :: 0 <= k < |spans| && spans[k].start <= p < spans[k].end
  }

  /**
    The matches a left-to-right, non-overlapping search from `i` reports:
    every span is a match, and no position outside the spans starts one.
   */
  ghost predicate Leftmost(m: Matcher, s: string, i: nat, spans: seq<Span>) {
    && i <= |s|
    && Placed(spans, i, |s|)
    && (forall k :: 0 <= k < |spans| ==> m(s, spans[k].start) == Some(spans[k].end))
    && (forall p :: i <= p < |s| && !Covered(spans, p) ==> m(s, p).None?)
  }

  /** The search itself: try each position in turn, jump past every match. */
  function Scan(m: Matcher, s: string, i: nat): (spans: seq<Span>)
    requires Advances(m) && i <= |s|
    ensures Placed(spans, i, |s|)
    decreases |s| - i
  {
    if i == |s| then []
    else
      match m(s, i)
      case Some(e) => [Span(i, e)] + Scan(m, s, e)
      case None => Scan(m, s, i + 1)
  }

  /** A position covered by the tail of a span list is covered by the list. */
  lemma CoveredTail(spans: seq<Span>)
    requires |spans| > 0
    ensures forall p: nat :: Covered(spans[1..], p) ==> Covered(spans, p)
  {
    forall p: nat | Covered(spans[1..], p)
      ensures Covered(spans, p)
    {
      var k :| 0 <= k < |spans[1..]| && spans[1..][k].start <= p < spans[1..][k].end;
      assert spans[k + 1] == spans[1..][k];
    }
  }

  /** Past the end of the first span, a covered position is covered by the tail. */
  lemma CoveredPastFirst(spans: seq<Span>)
    requires |spans| > 0
    ensures forall p: nat :: p >= spans[0].end && Covered(spans, p) ==> Covered(spans[1..], p)
  {
    forall p: nat | p >= spans[0].end && Covered(spans, p)
      ensures Covered(spans[1..], p)
    {
      var j :| 0 <= j < |spans| && spans[j].start <= p < spans[j].end;
      assert j != 0;
      assert spans[1..][j - 1] == spans[j];
    }
  }

  /** The search reports exactly the leftmost matches. */
  lemma {:induction false} ScanIsLeftmost(m: Matcher, s: string, i: nat)
    requires Advances(m) && i <= |s|
    ensures Leftmost(m, s, i, Scan(m, s, i))
    decreases |s| - i
  {
    if i < |s| {
      var spans := Scan(m, s, i);
      match m(s, i)
      case Some(e) =>
        ScanIsLeftmost(m, s, e);
        assert spans[1..] == Scan(m, s, e);
        CoveredTail(spans);
        forall p | i <= p < e
          ensures Covered(spans, p)
        {
          assert spans[0].start <= p < spans[0].end;
        }
      case None =>
        ScanIsLeftmost(m, s, i + 1);
    }
  }

  /** Each reported span is a match of the pattern. */
  lemma ScanSpanMatches(m: Matcher, s: string, i: nat, k: nat)
    requires Advances(m) && i <= |s| && k < |Scan(m, s, i)|
    ensures m(s, Scan(m, s, i)[k].start) == Some(Scan(m, s, i)[k].end)
  {
    ScanIsLeftmost(m, s, i);
  }

  /** When a match starts at `i`, a leftmost span list begins with it. */
  lemma LeftmostHead(m: Matcher, s: string, i: nat, spans: seq<Span>, e: nat)
    requires Advances(m)
    requires Leftmost(m, s, i, spans) && i < |s| && m(s, i) == Some(e)
    ensures |spans| > 0 && spans[0] == Span(i, e)
  {
    assert Covered(spans, i);
    var k :| 0 <= k < |spans| && spans[k].start <= i < spans[k].end;
    assert m(s, spans[0].start) == Some(spans[0].end);
    assert spans[0].start < spans[0].end;
    assert k == 0;
  }

  /** Past its first span, a leftmost span list is leftmost from that span's end. */
  lemma LeftmostTail(m: Matcher, s: string, i: nat, spans: seq<Span>)
    requires Leftmost(m, s, i, spans) && |spans| > 0
    ensures Leftmost(m, s, spans[0].end, spans[1..])
  {
    var rest := spans[1..];
    assert Placed(rest, spans[0].end, |s|) by {
      forall k | 0 <= k < |rest| ensures spans[0].end <= rest[k].start {
        assert rest[k] == spans[k + 1];
      }
    }
    assert forall k :: 0 <= k < |rest| ==> m(s, rest[k].start) == Some(rest[k].end) by {
      forall k | 0 <= k < |rest| ensures m(s, rest[k].start) == Some(rest[k].end) {
        assert rest[k] == spans[k + 1];
      }
    }
    CoveredPastFirst(spans);
  }

  lemma LeftmostFirst(m: Matcher, s: string, i: nat, spans: seq<Span>, e: nat)
    requires Advances(m)
    requires Leftmost(m, s, i, spans) && i < |s| && m(s, i) == Some(e)
    ensures |spans| > 0 && spans[0] == Span(i, e)
    ensures Leftmost(m, s, e, spans[1..])
  {
    LeftmostHead(m, s, i, spans, e);
    LeftmostTail(m, s, i, spans);
  }

  /** When no match starts at `i`, the same span list is leftmost from `i + 1`. */
  lemma LeftmostSkip(m: Matcher, s: string, i: nat, spans: seq<Span>)
    requires Leftmost(m, s, i, spans) && i < |s| && m(s, i).None?
    ensures Leftmost(m, s, i + 1, spans)
  {
    assert spans != [] ==> m(s, spans[0].start).Some?;
  }

  /** Every reported span starts inside the text. */
  lemma FirstSpanInside(m: Matcher, s: string, i: nat, spans: seq<Span>)
    requires Advances(m) && Leftmost(m, s, i, spans)
    ensures |spans| > 0 ==> spans[0].start < |s|
  {
    if |spans| > 0 {
      assert m(s, spans[0].start) == Some(spans[0].end);
    }
  }

  /** The search's list at a match is that match followed by the list from its end. */
  lemma ScanAtMatch(m: Matcher, s: string, i: nat, spans: seq<Span>, e: nat)
    requires Advances(m) && i < |s| && m(s, i) == Some(e)
    requires |spans| > 0 && spans[0] == Span(i, e) && spans[1..] == Scan(m, s, e)
    ensures spans == Scan(m, s, i)
  {
    assert spans == [spans[0]] + spans[1..];
  }

  /** A span list with the leftmost shape is the one the search reports. */
  lemma {:induction false} LeftmostIsScan(m: Matcher, s: string, i: nat, spans: seq<Span>)
    requires Advances(m) && Leftmost(m, s, i, spans)
    ensures spans == Scan(m, s, i)
    decreases |s| - i
  {
    if i == |s| {
      FirstSpanInside(m, s, i, spans);
    } else {
      match m(s, i)
      case Some(e) =>
        LeftmostFirst(m, s, i, spans, e);
        LeftmostIsScan(m, s, e, spans[1..]);
        ScanAtMatch(m, s, i, spans, e);
      case None =>
        LeftmostSkip(m, s, i, spans);
        LeftmostIsScan(m, s, i + 1, spans);
    }
  }

  /**
    The text from `i` with each span replaced by the replacement of the same
    index, and everything between spans copied unchanged.
   */
  function Splice(s: string, i: nat, spans: seq<Span>, repls: seq<string>): string
    requires i <= |s| && Placed(spans, i, |s|) && |repls| == |spans|
    decreases |spans|
  {
    if spans == [] then s[i..]
    else s[i..spans[0].start] + repls[0] + Splice(s, spans[0].end, spans[1..], repls[1..])
  }

  /** The text each span covers. */
  function Originals(s: string, spans: seq<Span>): (texts: seq<string>)
    requires Placed(spans, 0, |s|)
    ensures |texts| == |spans|
  {
    if spans == [] then [] else [s[spans[0].start..spans[0].end]] + Originals(s, spans[1..])
  }

  /** Only spans change: putting back what they covered restores the text. */
  lemma {:induction false} SpliceOriginals(s: string, i: nat, spans: seq<Span>)
    requires i <= |s| && Placed(spans, i, |s|)
    ensures Placed(spans, 0, |s|)
    ensures Splice(s, i, spans, Originals(s, spans)) == s[i..]
    decreases |spans|
  {
    if spans != [] {
      SpliceOriginals(s, spans[0].end, spans[1..]);
      var a := spans[0].start;
      var b := spans[0].end;
      assert s[i..a] + s[a..b] + s[b..] == s[i..];
    }
  }

  /** Skipping one position that no span covers moves one character into the copied text. */
  lemma SpliceStep(s: string, i: nat, spans: seq<Span>, repls: seq<string>)
    requires i < |s| && Placed(spans, i + 1, |s|) && |repls| == |spans|
    ensures Placed(spans, i, |s|)
    ensures Splice(s, i, spans, repls) == [s[i]] + Splice(s, i + 1, spans, repls)
  {
    if spans != [] {
      assert s[i..spans[0].start] == [s[i]] + s[i + 1..spans[0].start];
    }
  }

  /** A span ending where a placed list begins can be put in front of it. */
  lemma PlacedCons(sp: Span, rest: seq<Span>, n: nat)
    requires sp.start <= sp.end && Placed(rest, sp.end, n) && sp.end <= n
    ensures Placed([sp] + rest, sp.start, n)
  {
    var spans := [sp] + rest;
    forall k | 0 <= k < |spans|
      ensures sp.start <= spans[k].start <= spans[k].end <= n
    {
      if k > 0 { assert spans[k] == rest[k - 1]; }
    }
    forall k1, k2 | 0 <= k1 < k2 < |spans|
      ensures spans[k1].end <= spans[k2].start
    {
      assert spans[k2] == rest[k2 - 1];
      if k1 > 0 { assert spans[k1] == rest[k1 - 1]; }
    }
  }

  /** A match at the start of the text splices in its replacement before the rest. */
  lemma SpliceAtMatch(s: string, i: nat, e: nat, rest: seq<Span>, head: string, repls: seq<string>)
    requires i < e <= |s| && Placed(rest, e, |s|) && |repls| == |rest|
    ensures Placed([Span(i, e)] + rest, i, |s|)
    ensures Splice(s, i, [Span(i, e)] + rest, [head] + repls) == head + Splice(s, e, rest, repls)
  {
    PlacedCons(Span(i, e), rest, |s|);
    SpliceFirst(s, i, [Span(i, e)] + rest, [head] + repls, rest, repls);
  }

  /** Unfolding `Splice` once, with the tails named. */
  lemma SpliceFirst(s: string, i: nat, spans: seq<Span>, repls: seq<string>, rest: seq<Span>, more: seq<string>)
    requires i <= |s| && Placed(spans, i, |s|) && |repls| == |spans|
    requires spans != [] && spans[1..] == rest && repls[1..] == more && spans[0].start == i
    ensures Splice(s, i, spans, repls) == repls[0] + Splice(s, spans[0].end, rest, more)
  {
    assert s[i..i] == [];
  }
}
