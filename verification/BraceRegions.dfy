/** The quote-blind scan for the largest balanced brace region, and its agreement with the string-aware one. */
module BraceRegions {
  import opened Wrappers
  import opened JsonScan
  import opened JsonRecovery

  /** Brace depth before position `k`, a closer at depth zero being ignored. */
  function Depth(t: string, k: nat): nat
    requires k <= |t|
  {
    if k == 0 then 0
    else
      var d := Depth(t, k - 1);
      if t[k - 1] == '{' then d + 1 else if t[k - 1] == '}' && d > 0 then d - 1 else d
  }

  /** A top-level balanced region: depth zero at both ends, positive strictly inside. */
  ghost predicate IsRegion(t: string, c: Span) {
    && c.first < c.last < |t|
    && t[c.first] == '{' && Depth(t, c.first) == 0 && Depth(t, c.last + 1) == 0
    && forall k :: c.first < k <= c.last ==> Depth(t, k) > 0
  }

  /** `c` is the earliest of the longest regions. */
  ghost predicate IsLargest(t: string, c: Span) {
    IsRegion(t, c) && forall r :: IsRegion(t, r) && r != c ==> Better(c, r)
  }

  /** `largestBalancedBraceRegion`: nothing exactly when there is no top-level balanced region, otherwise the
      earliest longest one. */
  method LargestBalancedBraceRegion(t: string) returns (r: Option<Span>)
    ensures r.None? <==> forall c :: !IsRegion(t, c)
    ensures r.Some? ==> IsLargest(t, r.value)
  {
    var stack: seq<nat> := [];
    r := None;
    for i := 0 to |t|
      invariant |stack| == Depth(t, i)
      invariant stack != [] ==> stack[0] < i && t[stack[0]] == '{' && Depth(t, stack[0]) == 0
      invariant stack != [] ==> forall k :: stack[0] < k <= i ==> Depth(t, k) > 0
      invariant r.None? ==> forall c :: IsRegion(t, c) ==> c.last >= i
      invariant r.Some? ==> IsRegion(t, r.value) && r.value.last < i
      invariant r.Some? ==> forall c :: IsRegion(t, c) && c.last < i && c != r.value ==> Better(r.value, c)
    {
      if t[i] == '{' {
        stack := stack + [i];
      } else if t[i] == '}' && |stack| > 0 {
        var start := stack[|stack| - 1];
        stack := stack[..|stack| - 1];
        if |stack| == 0 {
          var c := Span(start, i);
          assert IsRegion(t, c);
          OnlyRegionEndingHere(t, c);
          if r.None? || Length(c) > Length(r.value) {
            r := Some(c);
          }
        }
      }
    }
  }

  /** Two regions with the same end are the same region. */
  lemma OnlyRegionEndingHere(t: string, c: Span)
    requires IsRegion(t, c)
    ensures forall r :: IsRegion(t, r) && r.last == c.last ==> r == c
  {
  }

  // ---------------------------------------------------------------- agreement with the string-aware scan

  predicate QuoteFree(t: string) {
    forall i :: 0 <= i < |t| ==> t[i] != '"'
  }

  lemma DepthFollows(t: string, k: nat, d: nat, base: nat)
    requires QuoteFree(t) && k < |t| && d >= 1 && Depth(t, k) == base + d
    ensures Step(At(d), t[k]) == At(Step(At(d), t[k]).depth) && Depth(t, k + 1) == base + Step(At(d), t[k]).depth
    ensures if Closes(At(d), t[k]) then Step(At(d), t[k]).depth == 0 else Step(At(d), t[k]).depth >= 1
  {
  }

  lemma CloseStep(st: Scan, t: string, k: nat)
    requires k < |t|
    ensures Close(st, t[k..]) == if Closes(st, t[k]) then Some(0) else Plus(1, Close(Step(st, t[k]), t[k + 1..]))
  {
    assert t[k..][0] == t[k] && t[k..][1..] == t[k + 1..];
  }

  /** Without quotes, a scan at relative depth `d` closes exactly when the depth returns to its base. */
  lemma {:induction false} CloseIsReturn(t: string, k: nat, d: nat, base: nat)
    requires QuoteFree(t) && k <= |t| && d >= 1 && Depth(t, k) == base + d
    ensures match Close(At(d), t[k..])
      case None => forall x :: k <= x <= |t| ==> Depth(t, x) > base
      case Some(m) => k + m < |t| && Depth(t, k + m + 1) == base && forall x :: k <= x <= k + m ==> Depth(t, x) > base
    decreases |t| - k
  {
    if k < |t| {
      CloseStep(At(d), t, k);
      DepthFollows(t, k, d, base);
      if !Closes(At(d), t[k]) {
        CloseIsReturn(t, k + 1, Step(At(d), t[k]).depth, base);
      }
    }
  }

  lemma SpanIsClose(t: string, i: nat)
    requires i < |t| && t[i] == '{'
    ensures SpanAt(t, i) == match Close(At(1), t[i + 1..]) case None => None case Some(m) => Some(Span(i, i + 1 + m))
  {
    assert t[i..][0] == '{' && t[i..][1..] == t[i + 1..];
  }

  /** `s` is where the depth first returns to what it was before the brace at `i`, if it does. */
  ghost predicate IsReturn(t: string, i: nat, s: Option<Span>)
    requires i < |t|
  {
    match s
    case None => forall x :: i < x <= |t| ==> Depth(t, x) > Depth(t, i)
    case Some(c) =>
      && i < c.last < |t| && Depth(t, c.last + 1) == Depth(t, i)
      && forall x :: i < x <= c.last ==> Depth(t, x) > Depth(t, i)
  }

  lemma CloseAfterIsReturn(t: string, i: nat)
    requires QuoteFree(t) && i < |t| && t[i] == '{'
    ensures IsReturn(t, i, match Close(At(1), t[i + 1..]) case None => None case Some(m) => Some(Span(i, i + 1 + m)))
  {
    CloseIsReturn(t, i + 1, 1, Depth(t, i));
  }

  lemma SpanIsReturn(t: string, i: nat)
    requires QuoteFree(t) && i < |t| && t[i] == '{'
    ensures IsReturn(t, i, SpanAt(t, i))
  {
    SpanIsClose(t, i);
    CloseAfterIsReturn(t, i);
  }

  lemma RegionIsSpan(t: string, c: Span)
    requires QuoteFree(t)
    ensures IsRegion(t, c) <==> c.first < |t| && Depth(t, c.first) == 0 && SpanAt(t, c.first) == Some(c)
  {
    if c.first < |t| && t[c.first] == '{' {
      SpanIsReturn(t, c.first);
    }
  }

  lemma NoStraddle(t: string, p: nat, s: Span, c: Span)
    requires QuoteFree(t) && p < c.first < |t| && SpanAt(t, p) == Some(s) && Depth(t, c.first) == 0
    ensures s.last < c.first
  {
    SpanIsReturn(t, p);
  }

  /** The outer scan reaches every region: no candidate can straddle a position of depth zero. */
  lemma RegionIsPicked(t: string, c: Span)
    requires QuoteFree(t) && IsRegion(t, c)
    ensures c in Candidates(t)
  {
    RegionIsSpan(t, c);
    PickIsWellPlaced(Spans(t), 0);
    assert Spans(t)[c.first] == SpanAt(t, c.first);
    forall s | s in Candidates(t) ensures !Covers(s, c.first) {
      assert Spans(t)[s.first] == SpanAt(t, s.first);
      if s.first < c.first { NoStraddle(t, s.first, s, c); }
    }
    PickedUnlessCovered(Spans(t), 0, c.first);
  }

  /** Without quotes, the regions are exactly the string-aware candidates that start at depth zero. */
  lemma RegionsAreTopCandidates(t: string, c: Span)
    requires QuoteFree(t)
    ensures IsRegion(t, c) <==> c in Candidates(t) && c.first < |t| && Depth(t, c.first) == 0
  {
    RegionIsSpan(t, c);
    if IsRegion(t, c) {
      RegionIsPicked(t, c);
    } else if c in Candidates(t) {
      PickIsWellPlaced(Spans(t), 0);
      assert Spans(t)[c.first] == SpanAt(t, c.first);
    }
  }

  lemma {:induction false} EnclosingOpener(t: string, k: nat) returns (p: nat)
    requires k <= |t| && Depth(t, k) > 0
    ensures p < k && t[p] == '{' && Depth(t, p) == 0 && forall x :: p < x <= k ==> Depth(t, x) > 0
  {
    if Depth(t, k - 1) == 0 {
      p := k - 1;
    } else {
      p := EnclosingOpener(t, k - 1);
    }
  }

  /** Where, in addition, every opening brace is closed, the two scans find the same regions. */
  lemma ScansAgree(t: string, c: Span)
    requires QuoteFree(t) && Depth(t, |t|) == 0
    ensures IsRegion(t, c) <==> c in Candidates(t)
  {
    RegionsAreTopCandidates(t, c);
    if c in Candidates(t) {
      CandidatesAreOrdered(t);
      if Depth(t, c.first) > 0 {
        var p := EnclosingOpener(t, c.first);
        SpanIsReturn(t, p);
        var s := SpanAt(t, p).value;
        RegionIsSpan(t, s);
        RegionsAreTopCandidates(t, s);
        assert s in Candidates(t) && s.first < c.first <= s.last;
        OverlapIsEqual(t, s, c);
      }
    }
  }

  lemma OverlapIsEqual(t: string, a: Span, b: Span)
    requires a in Candidates(t) && b in Candidates(t) && a.first <= b.first <= a.last
    ensures a == b
  {
    CandidatesAreOrdered(t);
    var cs := Candidates(t);
    var i, j :| 0 <= i < |cs| && 0 <= j < |cs| && cs[i] == a && cs[j] == b;
  }
}
