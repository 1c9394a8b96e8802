/** The outer scan of the recovery: collecting closed candidates and choosing among them. */
module JsonRecovery {
  import opened Wrappers
  import opened JsonScan
  import Text

  /** The first and last position of a candidate. */
  datatype Span = Span(first: nat, last: nat)

  function Length(c: Span): int {
    c.last - c.first + 1
  }

  function Cut(t: string, c: Span): (r: string)
    requires c.first <= c.last < |t|
    ensures |r| == Length(c)
  {
    t[c.first..c.last + 1]
  }

  lemma {:induction false} CloseIsInside(st: Scan, s: string)
    ensures Close(st, s).Some? ==> Close(st, s).value < |s| && s[Close(st, s).value] == '}'
    decreases |s|
  {
    if s != "" && !Closes(st, s[0]) { CloseIsInside(Step(st, s[0]), s[1..]); }
  }

  /** The candidate that opens at `i`, if there is a brace and its scan closes. */
  function SpanAt(t: string, i: nat): (r: Option<Span>)
    requires i < |t|
    ensures r.Some? ==> r.value.first == i < r.value.last < |t| && t[i] == '{' && t[r.value.last] == '}'
  {
    if t[i] != '{' then None
    else
      CloseIsInside(OUTSIDE, t[i..]);
      match Close(OUTSIDE, t[i..])
      case None => None
      case Some(k) => Some(Span(i, i + k))
  }

  /** What each position of the text opens. */
  function Spans(t: string): (r: seq<Option<Span>>)
    ensures |r| == |t| && SpansFit(r)
  {
    seq(|t|, i requires 0 <= i < |t| => SpanAt(t, i))
  }

  predicate SpansFit(spans: seq<Option<Span>>) {
    forall i :: 0 <= i < |spans| && spans[i].Some? ==> spans[i].value.first == i < spans[i].value.last < |spans|
  }

  /** The spans met from position `i` on, resuming after each one's end. */
  function Pick(spans: seq<Option<Span>>, i: nat): seq<Span>
    requires SpansFit(spans)
    decreases |spans| - i
  {
    if i >= |spans| then []
    else if spans[i].None? then Pick(spans, i + 1)
    else [spans[i].value] + Pick(spans, spans[i].value.last + 1)
  }

  /** The candidates: from each opening brace not inside an earlier candidate, up to where its scan closes. */
  function Candidates(t: string): seq<Span> {
    Pick(Spans(t), 0)
  }

  /** Ordered, disjoint, and each one of the given spans. */
  ghost predicate WellPlaced(spans: seq<Option<Span>>, cs: seq<Span>, from: nat) {
    && (forall k :: 0 <= k < |cs| ==>
          from <= cs[k].first < cs[k].last < |spans| && spans[cs[k].first] == Some(cs[k]))
    && forall j, k :: 0 <= j < k < |cs| ==> cs[j].last < cs[k].first
  }

  lemma PickStep(spans: seq<Option<Span>>, i: nat)
    requires SpansFit(spans) && i < |spans|
    ensures Pick(spans, i) == match spans[i]
                              case None => Pick(spans, i + 1)
                              case Some(s) => [s] + Pick(spans, s.last + 1)
  {
  }

  lemma PlacedCons(spans: seq<Option<Span>>, s: Span, rest: seq<Span>)
    requires s.first < s.last < |spans| && spans[s.first] == Some(s) && WellPlaced(spans, rest, s.last + 1)
    ensures WellPlaced(spans, [s] + rest, s.first)
  {
  }

  lemma {:induction false} PickIsWellPlaced(spans: seq<Option<Span>>, i: nat)
    requires SpansFit(spans)
    ensures WellPlaced(spans, Pick(spans, i), i)
    decreases |spans| - i
  {
    if i < |spans| {
      PickStep(spans, i);
      if spans[i].None? {
        PickIsWellPlaced(spans, i + 1);
      } else {
        var s := spans[i].value;
        PickIsWellPlaced(spans, s.last + 1);
        PlacedCons(spans, s, Pick(spans, s.last + 1));
      }
    }
  }

  /** Candidates are ordered and disjoint, and each runs from an opening brace to a closing one. */
  lemma CandidatesAreOrdered(t: string)
    ensures forall k :: 0 <= k < |Candidates(t)| ==>
              var c := Candidates(t)[k]; c.first < c.last < |t| && t[c.first] == '{' && t[c.last] == '}'
    ensures forall j, k :: 0 <= j < k < |Candidates(t)| ==> Candidates(t)[j].last < Candidates(t)[k].first
  {
    var spans := Spans(t);
    PickIsWellPlaced(spans, 0);
    forall k | 0 <= k < |Candidates(t)|
      ensures var c := Candidates(t)[k]; c.first < c.last < |t| && t[c.first] == '{' && t[c.last] == '}'
    {
      var c := Candidates(t)[k];
      assert spans[c.first] == SpanAt(t, c.first);
    }
  }

  /** The nested loops of `stripToJson`. */
  method CollectCandidates(t: string) returns (cs: seq<Span>)
    ensures cs == Candidates(t)
  {
    cs := [];
    ghost var spans := Spans(t);
    var i := 0;
    while i < |t|
      invariant 0 <= i <= |t|
      invariant cs + Pick(spans, i) == Candidates(t)
    {
      cs, i := CollectNext(t, i, cs, spans);
    }
  }

  /** One round of the outer loop. */
  method CollectNext(t: string, i: nat, cs: seq<Span>, ghost spans: seq<Option<Span>>) returns (more: seq<Span>, next: nat)
    requires i < |t| && spans == Spans(t)
    ensures i < next <= |t| && more + Pick(spans, next) == cs + Pick(spans, i)
  {
    more, next := cs, i + 1;
    if t[i] == '{' {
      var found, end := ClosedAt(t, i, spans);
      if found {
        TakeSpan(spans, cs, i, end);
        more, next := cs + [Span(i, end)], end + 1;
      } else {
        PickStep(spans, i);
      }
    } else {
      NothingOpens(t, i, spans);
    }
  }

  lemma TakeSpan(spans: seq<Option<Span>>, cs: seq<Span>, i: nat, end: nat)
    requires SpansFit(spans) && i < |spans| && spans[i] == Some(Span(i, end))
    ensures cs + [Span(i, end)] + Pick(spans, end + 1) == cs + Pick(spans, i)
  {
    PickStep(spans, i);
    Associates(cs, [Span(i, end)], Pick(spans, end + 1));
  }

  lemma NothingOpens(t: string, i: nat, spans: seq<Option<Span>>)
    requires i < |t| && t[i] != '{' && spans == Spans(t)
    ensures Pick(spans, i) == Pick(spans, i + 1)
  {
    assert spans[i] == SpanAt(t, i);
  }

  method ClosedAt(t: string, i: nat, ghost spans: seq<Option<Span>>) returns (found: bool, end: nat)
    requires i < |t| && t[i] == '{' && spans == Spans(t)
    ensures spans[i] == if found then Some(Span(i, end)) else None
    ensures found ==> i < end < |t|
  {
    found, end := ScanFrom(t, i);
    assert spans[i] == SpanAt(t, i);
  }

  /** The inner loop: whether the brace at `i` closes, and where. */
  method ScanFrom(t: string, i: nat) returns (found: bool, end: nat)
    requires i < |t| && t[i] == '{'
    ensures Close(OUTSIDE, t[i..]) == if found then Some(end - i) else None
    ensures found ==> i < end < |t|
  {
    CloseIsInside(OUTSIDE, t[i..]);
    end := i;
    var st := OUTSIDE;
    var j := i;
    while j < |t|
      invariant i <= j <= |t|
      invariant Close(OUTSIDE, t[i..]) == Plus(j - i, Close(st, t[j..]))
    {
      var c := t[j];
      assert t[j..][0] == c && t[j..][1..] == t[j + 1..];
      if st.inStr {
        if st.esc {
          st := st.(esc := false);
        } else if c == '\\' {
          st := st.(esc := true);
        } else if c == '"' {
          st := st.(inStr := false);
        }
      } else if c == '"' {
        st := st.(inStr := true);
      } else if c == '{' {
        st := st.(depth := st.depth + 1);
      } else if c == '}' {
        st := st.(depth := st.depth - 1);
        if st.depth == 0 {
          return true, j;
        }
      }
      j := j + 1;
    }
    return false, i;
  }

  // ---------------------------------------------------------------- choosing

  /** Longer first, and among equals the earlier. */
  predicate Better(a: Span, b: Span) {
    Length(a) > Length(b) || (Length(a) == Length(b) && a.first < b.first)
  }

  function Insert(sorted: seq<Span>, c: Span): seq<Span> {
    if sorted == [] then [c]
    else if Length(sorted[0]) >= Length(c) then [sorted[0]] + Insert(sorted[1..], c)
    else [c] + sorted
  }

  /** The stable sort by descending length. */
  function LongestFirst(cs: seq<Span>): seq<Span> {
    if cs == [] then [] else Insert(LongestFirst(cs[..|cs| - 1]), cs[|cs| - 1])
  }

  ghost predicate Ranked(cs: seq<Span>) {
    forall a, b :: 0 <= a < b < |cs| ==> Better(cs[a], cs[b])
  }

  lemma {:induction false} InsertRanks(sorted: seq<Span>, c: Span)
    requires Ranked(sorted) && forall k :: 0 <= k < |sorted| ==> sorted[k].first < c.first
    ensures Ranked(Insert(sorted, c))
    ensures forall x :: x in Insert(sorted, c) <==> x in sorted || x == c
  {
    if sorted != [] && Length(sorted[0]) >= Length(c) {
      var rest := sorted[1..];
      InsertRanks(rest, c);
      var r := Insert(rest, c);
      assert Insert(sorted, c) == [sorted[0]] + r;
      assert sorted == [sorted[0]] + rest;
      forall b | 0 <= b < |r| ensures Better(sorted[0], r[b]) {
        assert r[b] in r;
        if r[b] in rest {
          var k :| 0 <= k < |rest| && rest[k] == r[b];
          assert Better(sorted[0], sorted[k + 1]);
        }
      }
    }
  }

  lemma {:induction false} LongestFirstRanks(cs: seq<Span>)
    requires forall j, k :: 0 <= j < k < |cs| ==> cs[j].first < cs[k].first
    ensures Ranked(LongestFirst(cs))
    ensures forall x :: x in LongestFirst(cs) <==> x in cs
  {
    if cs != [] {
      var front, last := cs[..|cs| - 1], cs[|cs| - 1];
      LongestFirstRanks(front);
      var sorted := LongestFirst(front);
      forall k | 0 <= k < |sorted| ensures sorted[k].first < last.first {
        assert sorted[k] in front;
        var j :| 0 <= j < |front| && front[j] == sorted[k];
        assert cs[j].first < last.first;
      }
      InsertRanks(sorted, last);
      assert cs == front + [last];
    }
  }

  /** `c` is the candidate the recovery settles on: usable, and better than every other usable one. */
  ghost predicate Chosen(t: string, usable: string -> bool, c: Span) {
    && c in Candidates(t) && UsableIn(t, usable, c)
    && forall x :: x in Candidates(t) && x != c && UsableIn(t, usable, x) ==> Better(c, x)
  }

  // ---------------------------------------------------------------- stripToJson

  const FENCE := "```"

  /** The fence's optional `json` tag, in any case. */
  predicate Tagged(s: string) {
    |s| >= 4 && s[0] in {'j', 'J'} && s[1] in {'s', 'S'} && s[2] in {'o', 'O'} && s[3] in {'n', 'N'}
  }

  /** What a text that is one code fence holds, tag and surrounding space removed; any other text itself. */
  function Inside(t: string): string {
    if |t| >= 6 && t[..3] == FENCE && t[|t| - 3..] == FENCE then
      var inner := t[3..|t| - 3];
      Text.JsTrim(if Tagged(inner) then inner[4..] else inner)
    else t
  }

  /** The text the recovery works on: trimmed, and taken out of a code fence around all of it. */
  function Unfenced(text: string): string {
    Inside(Text.JsTrim(text))
  }

  predicate UsableIn(t: string, usable: string -> bool, c: Span) {
    c.first <= c.last < |t| && usable(Cut(t, c))
  }

  function FirstUsable(t: string, cs: seq<Span>, usable: string -> bool): Option<string> {
    if cs == [] then None
    else if UsableIn(t, usable, cs[0]) then Some(Cut(t, cs[0]))
    else FirstUsable(t, cs[1..], usable)
  }

  /** What the recovery comes back with. */
  function Recovered(text: string, parses: string -> bool, usable: string -> bool): Option<string> {
    var t := Unfenced(text);
    if parses(t) then Some(t) else FirstUsable(t, LongestFirst(Candidates(t)), usable)
  }

  /** `stripToJson`; `parses` says that the whole text is JSON, `usable` that a candidate is a non-empty object. */
  method StripToJson(text: string, parses: string -> bool, usable: string -> bool) returns (r: Option<string>)
    ensures r == Recovered(text, parses, usable)
    ensures Settled(Unfenced(text), parses, usable, r)
    ensures forall w, t :: Fits(w, t) && text == Wrap(w, t) ==> Settled(t, parses, usable, r)
  {
    forall w, t | Fits(w, t) && text == Wrap(w, t) ensures Unfenced(text) == t {
      WrappingComesOff(w, t, parses, usable);
    }
    var t := Unfenced(text);
    if parses(t) {
      return Some(t);
    }
    var cs := CollectCandidates(t);
    var sorted := LongestFirst(cs);
    FirstUsableIsBest(t, usable);
    for k := 0 to |sorted|
      invariant FirstUsable(t, sorted, usable) == FirstUsable(t, sorted[k..], usable)
    {
      var c := sorted[k];
      assert sorted[k..][0] == c && sorted[k..][1..] == sorted[k + 1..];
      if UsableIn(t, usable, c) {
        return Some(Cut(t, c));
      }
    }
    return None;
  }

  /** Nothing exactly when no candidate is usable, otherwise the text of the candidate to settle on. */
  ghost predicate BestUsable(t: string, usable: string -> bool, r: Option<string>) {
    match r
    case None => forall c :: c in Candidates(t) ==> !UsableIn(t, usable, c)
    case Some(text) => exists c :: Chosen(t, usable, c) && text == Cut(t, c)
  }

  /** Working on `t`: all of it if it is JSON, otherwise the best candidate in it. */
  ghost predicate Settled(t: string, parses: string -> bool, usable: string -> bool, r: Option<string>) {
    if parses(t) then r == Some(t) else BestUsable(t, usable, r)
  }

  lemma {:induction false} FirstUsableIn(t: string, cs: seq<Span>, usable: string -> bool) returns (k: nat)
    ensures k <= |cs| && forall j :: 0 <= j < k ==> !UsableIn(t, usable, cs[j])
    ensures if k == |cs| then FirstUsable(t, cs, usable).None?
            else UsableIn(t, usable, cs[k]) && FirstUsable(t, cs, usable) == Some(Cut(t, cs[k]))
  {
    k := 0;
    if cs != [] && !UsableIn(t, usable, cs[0]) {
      k := FirstUsableIn(t, cs[1..], usable);
      assert forall j :: 0 < j < |cs| ==> cs[j] == cs[1..][j - 1];
      k := k + 1;
    }
  }

  lemma FirstUsableIsBest(t: string, usable: string -> bool)
    ensures BestUsable(t, usable, FirstUsable(t, LongestFirst(Candidates(t)), usable))
  {
    CandidatesAreOrdered(t);
    LongestFirstRanks(Candidates(t));
    var sorted := LongestFirst(Candidates(t));
    var k := FirstUsableIn(t, sorted, usable);
    if k < |sorted| {
      ChosenIsFirst(t, usable, sorted, k);
    } else {
      forall c | c in Candidates(t) ensures !UsableIn(t, usable, c) {
        assert c in sorted;
      }
    }
  }

  lemma ChosenIsFirst(t: string, usable: string -> bool, sorted: seq<Span>, k: nat)
    requires Ranked(sorted) && k < |sorted| && forall x :: x in sorted <==> x in Candidates(t)
    requires UsableIn(t, usable, sorted[k])
    requires forall j :: 0 <= j < k ==> !UsableIn(t, usable, sorted[j])
    ensures Chosen(t, usable, sorted[k])
  {
    assert sorted[k] in sorted;
    forall x | x in Candidates(t) && x != sorted[k] && UsableIn(t, usable, x)
      ensures Better(sorted[k], x)
    {
      assert x in sorted;
      var j :| 0 <= j < |sorted| && sorted[j] == x;
      assert j > k;
    }
  }

  /** A fence around the text, with or without a tag and with any space anywhere outside the core, is taken off. */
  lemma FenceIsTakenOff(before: string, tag: string, open: string, core: string, close: string, after: string)
    requires Text.JsBlank(before) && Text.JsBlank(open) && Text.JsBlank(close) && Text.JsBlank(after)
    requires core != "" ==> !Text.IsJsSpace(core[0]) && !Text.IsJsSpace(core[|core| - 1])
    requires if tag == "" then !Tagged(open + core + close) else |tag| == 4 && Tagged(tag)
    ensures Unfenced(before + (FENCE + tag + (open + core + close) + FENCE) + after) == core
  {
    var body := open + core + close;
    var fenced := FENCE + tag + body + FENCE;
    Text.TrimIsCore(before, fenced, after, Text.JavaScript);
    Text.TrimIsCore(open, core, close, Text.JavaScript);
    FenceParts(tag, body);
  }

  lemma FenceParts(tag: string, body: string)
    requires if tag == "" then !Tagged(body) else |tag| == 4 && Tagged(tag)
    ensures Inside(FENCE + tag + body + FENCE) == Text.JsTrim(body)
  {
    var fenced := FENCE + tag + body + FENCE;
    assert fenced[..3] == FENCE && fenced[|fenced| - 3..] == FENCE;
    assert fenced[3..|fenced| - 3] == tag + body;
    if tag == "" {
      assert tag + body == body;
    } else {
      assert (tag + body)[4..] == body;
    }
  }

  /** How a reply may come: as it stands or in a code fence, with white space around and inside. */
  datatype Wrapping =
    | Bare(before: string, after: string)
    | Fenced(before: string, tag: string, open: string, close: string, after: string)

  function Wrap(w: Wrapping, t: string): string {
    match w
    case Bare(before, after) => before + t + after
    case Fenced(before, tag, open, close, after) => before + (FENCE + tag + (open + t + close) + FENCE) + after
  }

  predicate IsFence(t: string) {
    |t| >= 6 && FENCE <= t && t[|t| - 3..] == FENCE
  }

  function LowerAscii(s: string): string {
    seq(|s|, i requires 0 <= i < |s| => if 'A' <= s[i] <= 'Z' then (s[i] as int + 32) as char else s[i])
  }

  /** The text starts with `json`, in any case. */
  predicate StartsWithJson(s: string) {
    |s| >= 4 && LowerAscii(s[..4]) == "json"
  }

  lemma TaggedIsJson(s: string)
    ensures Tagged(s) <==> StartsWithJson(s)
  {
    if |s| >= 4 {
      var l := LowerAscii(s[..4]);
      assert l == "json" <==> l[0] == 'j' && l[1] == 's' && l[2] == 'o' && l[3] == 'n';
      LetterIsLowered(s[0], 'j');
      LetterIsLowered(s[1], 's');
      LetterIsLowered(s[2], 'o');
      LetterIsLowered(s[3], 'n');
    }
  }

  lemma LetterIsLowered(c: char, low: char)
    requires 'a' <= low <= 'z'
    ensures LowerAscii([c])[0] == low <==> c == low || c as int + 32 == low as int
  {
  }

  /** The wrapping is white space and at most a fence tag, and `t` is all it holds: no space at the ends of `t`,
      and a bare `t` is not itself a fence. */
  ghost predicate Fits(w: Wrapping, t: string) {
    && (t != "" ==> !Text.IsJsSpace(t[0]) && !Text.IsJsSpace(t[|t| - 1]))
    && Text.JsBlank(w.before) && Text.JsBlank(w.after)
    && match w
       case Bare(_, _) => !IsFence(t)
       case Fenced(_, tag, open, close, _) =>
         && Text.JsBlank(open) && Text.JsBlank(close)
         && if tag == "" then !StartsWithJson(open + t + close) else |tag| == 4 && StartsWithJson(tag)
  }

  /** A bare text is worked on as it stands, but for the white space around it. */
  lemma BareIsKept(before: string, t: string, after: string)
    requires Text.JsBlank(before) && Text.JsBlank(after) && !IsFence(t)
    requires t != "" ==> !Text.IsJsSpace(t[0]) && !Text.IsJsSpace(t[|t| - 1])
    ensures Unfenced(before + t + after) == t
  {
    Text.TrimIsCore(before, t, after, Text.JavaScript);
  }

  /** Whatever the wrapping, the recovery works on exactly what it holds; and returns that if it is JSON. */
  lemma WrappingComesOff(w: Wrapping, t: string, parses: string -> bool, usable: string -> bool)
    requires Fits(w, t)
    ensures Unfenced(Wrap(w, t)) == t
    ensures parses(t) ==> Recovered(Wrap(w, t), parses, usable) == Some(t)
  {
    match w
    case Bare(before, after) => BareIsKept(before, t, after);
    case Fenced(before, tag, open, close, after) =>
      TaggedIsJson(tag);
      TaggedIsJson(open + t + close);
      FenceIsTakenOff(before, tag, open, t, close, after);
  }

  // ---------------------------------------------------------------- objects in prose

  /** Prose without an opening brace (quotes and closing braces allowed), or a text that closes itself. */
  datatype Segment = Prose(text: string) | Closed(text: string)

  ghost predicate ValidSegment(g: Segment) {
    if g.Prose? then '{' !in g.text else SelfClosing(g.text)
  }

  function Render(gs: seq<Segment>): string {
    if gs == [] then "" else gs[0].text + Render(gs[1..])
  }

  function PlaceAt(g: Segment, at: nat): seq<Span> {
    if g.Closed? && g.text != "" then [Span(at, at + |g.text| - 1)] else []
  }

  /** Where the closed texts of the rendered sequence lie. */
  function Places(gs: seq<Segment>, at: nat): seq<Span> {
    if gs == [] then [] else PlaceAt(gs[0], at) + Places(gs[1..], at + |gs[0].text|)
  }

  lemma {:induction false} NothingToPick(spans: seq<Option<Span>>, i: nat, j: nat)
    requires SpansFit(spans) && i <= j <= |spans| && forall k :: i <= k < j ==> spans[k].None?
    ensures Pick(spans, i) == Pick(spans, j)
    decreases j - i
  {
    if i < j { NothingToPick(spans, i + 1, j); }
  }

  /** One segment's stretch of the spans: nothing opens in prose, and a closed text is one span. */
  ghost predicate Lies(spans: seq<Option<Span>>, at: nat, g: Segment) {
    && at + |g.text| <= |spans|
    && (if g.Prose? then forall k :: at <= k < at + |g.text| ==> spans[k].None?
        else |g.text| > 0 && spans[at] == Some(Span(at, at + |g.text| - 1)))
  }

  /** The spans from `at` on are laid out as the segments say. */
  ghost predicate LaidOut(spans: seq<Option<Span>>, at: nat, gs: seq<Segment>)
    decreases |gs|
  {
    if gs == [] then at == |spans|
    else Lies(spans, at, gs[0]) && LaidOut(spans, at + |gs[0].text|, gs[1..])
  }

  lemma SegmentLies(t: string, at: nat, g: Segment, rest: string)
    requires ValidSegment(g) && at <= |t| && t[at..] == g.text + rest
    ensures Lies(Spans(t), at, g)
  {
    RestOfText(t, at, g.text, rest);
    if g.Prose? {
      ProseOpensNothing(t, at, g.text, rest);
    } else {
      ClosedIsASpan(t, at, g.text, rest);
    }
  }

  lemma {:induction false} RenderingIsLaidOut(t: string, at: nat, gs: seq<Segment>)
    requires forall k :: 0 <= k < |gs| ==> ValidSegment(gs[k])
    requires at <= |t| && t[at..] == Render(gs)
    ensures LaidOut(Spans(t), at, gs)
    decreases |gs|
  {
    if gs != [] {
      RestOfText(t, at, gs[0].text, Render(gs[1..]));
      RenderingIsLaidOut(t, at + |gs[0].text|, gs[1..]);
      SegmentLies(t, at, gs[0], Render(gs[1..]));
    }
  }

  lemma SegmentIsPicked(spans: seq<Option<Span>>, at: nat, g: Segment)
    requires SpansFit(spans) && Lies(spans, at, g)
    ensures Pick(spans, at) == PlaceAt(g, at) + Pick(spans, at + |g.text|)
  {
    if g.Prose? {
      NothingToPick(spans, at, at + |g.text|);
      assert PlaceAt(g, at) == [];
    } else {
      PickStep(spans, at);
    }
  }

  lemma {:induction false} LaidOutIsPicked(spans: seq<Option<Span>>, at: nat, gs: seq<Segment>)
    requires SpansFit(spans) && LaidOut(spans, at, gs)
    ensures Pick(spans, at) == Places(gs, at)
    decreases |gs|
  {
    if gs != [] {
      SegmentIsPicked(spans, at, gs[0]);
      LaidOutIsPicked(spans, at + |gs[0].text|, gs[1..]);
    }
  }

  /** On prose interleaved with self-closing texts, the candidates are exactly those texts, in order. */
  lemma CandidatesAreTheClosed(gs: seq<Segment>)
    requires forall k :: 0 <= k < |gs| ==> ValidSegment(gs[k])
    ensures Candidates(Render(gs)) == Places(gs, 0)
  {
    RenderingIsLaidOut(Render(gs), 0, gs);
    LaidOutIsPicked(Spans(Render(gs)), 0, gs);
  }

  lemma RestOfText(t: string, at: nat, text: string, rest: string)
    requires at <= |t| && t[at..] == text + rest
    ensures at + |text| <= |t| && t[at..at + |text|] == text && t[at + |text|..] == rest
  {
    assert t[at..][|text|..] == rest && t[at..][..|text|] == text;
  }

  lemma ProseOpensNothing(t: string, at: nat, s: string, rest: string)
    requires '{' !in s && at <= |t| && t[at..] == s + rest
    ensures at + |s| <= |t| && forall k :: at <= k < at + |s| ==> Spans(t)[k].None?
  {
    RestOfText(t, at, s, rest);
    forall k | at <= k < at + |s| ensures Spans(t)[k].None? {
      assert t[k] == t[at..at + |s|][k - at];
    }
  }

  lemma ClosedIsASpan(t: string, at: nat, text: string, rest: string)
    requires SelfClosing(text) && at <= |t| && t[at..] == text + rest
    ensures at < |t| && Spans(t)[at] == Some(Span(at, at + |text| - 1))
  {
    assert Close(OUTSIDE, text + rest) == Some(|text| - 1);
    assert t[at] == t[at..][0] == text[0] == '{';
    assert Spans(t)[at] == SpanAt(t, at);
  }

  lemma {:induction false} PlaceOf(t: string, at: nat, gs: seq<Segment>, k: nat) returns (c: Span)
    requires at <= |t| && t[at..] == Render(gs) && k < |gs| && gs[k].Closed? && gs[k].text != ""
    ensures c in Places(gs, at) && c.first <= c.last < |t| && Cut(t, c) == gs[k].text
    decreases |gs|
  {
    RestOfText(t, at, gs[0].text, Render(gs[1..]));
    if k == 0 {
      c := Span(at, at + |gs[0].text| - 1);
    } else {
      c := PlaceOf(t, at + |gs[0].text|, gs[1..], k - 1);
    }
  }

  lemma {:induction false} PlaceIsClosed(t: string, at: nat, gs: seq<Segment>, c: Span) returns (k: nat)
    requires at <= |t| && t[at..] == Render(gs) && c in Places(gs, at) && c.first <= c.last < |t|
    ensures k < |gs| && gs[k].Closed? && Cut(t, c) == gs[k].text
    decreases |gs|
  {
    RestOfText(t, at, gs[0].text, Render(gs[1..]));
    if c in PlaceAt(gs[0], at) {
      k := 0;
    } else {
      k := PlaceIsClosed(t, at + |gs[0].text|, gs[1..], c);
      k := k + 1;
    }
  }

  // ---------------------------------------------------------------- the payload

  /** A response as the recovery meets it: prose, and JSON objects. */
  datatype Chunk = Words(s: string) | Object(members: Members)

  ghost predicate ValidChunks(cs: seq<Chunk>) {
    forall i :: 0 <= i < |cs| ==> if cs[i].Words? then '{' !in cs[i].s else ValidMembers(cs[i].members)
  }

  function SegmentOf(c: Chunk): Segment {
    if c.Words? then Prose(c.s) else Closed(ObjectText(c.members))
  }

  function Response(cs: seq<Chunk>): string {
    Render(SegmentsOf(cs))
  }

  function SegmentsOf(cs: seq<Chunk>): (r: seq<Segment>)
    ensures |r| == |cs| && forall i :: 0 <= i < |cs| ==> r[i] == SegmentOf(cs[i])
  {
    seq(|cs|, i requires 0 <= i < |cs| => SegmentOf(cs[i]))
  }

  lemma ChunksAreValidSegments(cs: seq<Chunk>)
    requires ValidChunks(cs)
    ensures forall i :: 0 <= i < |cs| ==> ValidSegment(SegmentsOf(cs)[i])
  {
    forall i | 0 <= i < |cs| ensures ValidSegment(SegmentsOf(cs)[i]) {
      if cs[i].Object? { ObjectSelfCloses(cs[i].members); }
    }
  }

  /** The parser accepts the objects of the response, and calls them usable exactly when they have members. */
  ghost predicate ParserAgrees(cs: seq<Chunk>, usable: string -> bool) {
    forall i :: 0 <= i < |cs| && cs[i].Object? ==> (usable(ObjectText(cs[i].members)) <==> cs[i].members.Member?)
  }

  predicate HasMembers(c: Chunk) {
    c.Object? && c.members.Member?
  }

  /** What the recovery chooses is the text of an object with members, and no such object is longer, nor an
      equally long one earlier; so a strictly longest payload is what comes back. */
  lemma LongestObjectIsChosen(cs: seq<Chunk>, usable: string -> bool, c: Span) returns (k: nat)
    requires ValidChunks(cs) && ParserAgrees(cs, usable)
    requires Chosen(Response(cs), usable, c)
    ensures k < |cs| && HasMembers(cs[k]) && Cut(Response(cs), c) == ObjectText(cs[k].members)
    ensures forall i :: 0 <= i < |cs| && HasMembers(cs[i]) ==>
              |ObjectText(cs[i].members)| <= |ObjectText(cs[k].members)|
  {
    var t, gs := Response(cs), SegmentsOf(cs);
    ChunksAreValidSegments(cs);
    CandidatesAreTheClosed(gs);
    k := PlaceIsClosed(t, 0, gs, c);
    assert ValidMembers(cs[k].members) && usable(ObjectText(cs[k].members));
    forall i | 0 <= i < |cs| && HasMembers(cs[i])
      ensures |ObjectText(cs[i].members)| <= |ObjectText(cs[k].members)|
    {
      ChosenIsLongest(cs, usable, c, i);
    }
  }

  lemma ChosenIsLongest(cs: seq<Chunk>, usable: string -> bool, c: Span, i: nat)
    requires ValidChunks(cs) && ParserAgrees(cs, usable)
    requires Chosen(Response(cs), usable, c) && i < |cs| && HasMembers(cs[i])
    ensures |ObjectText(cs[i].members)| <= |Cut(Response(cs), c)|
  {
    var t, gs := Response(cs), SegmentsOf(cs);
    var p := ObjectIsCandidate(cs, usable, i);
    assert p == c || Better(c, p);
  }

  /** Every object with members is a usable candidate, so the recovery finds one if there is one. */
  lemma ObjectIsCandidate(cs: seq<Chunk>, usable: string -> bool, i: nat) returns (c: Span)
    requires ValidChunks(cs) && ParserAgrees(cs, usable) && i < |cs| && HasMembers(cs[i])
    ensures c in Candidates(Response(cs)) && c.first <= c.last < |Response(cs)|
    ensures Cut(Response(cs), c) == ObjectText(cs[i].members) && usable(Cut(Response(cs), c))
  {
    ChunksAreValidSegments(cs);
    CandidatesAreTheClosed(SegmentsOf(cs));
    assert ValidSegment(SegmentsOf(cs)[i]);
    c := PlaceOf(Response(cs), 0, SegmentsOf(cs), i);
    assert ValidMembers(cs[i].members);
  }

  lemma PayloadIsChosen(cs: seq<Chunk>, payload: nat, usable: string -> bool, c: Span)
    requires ValidChunks(cs) && ParserAgrees(cs, usable) && Longest(cs, payload)
    requires Chosen(Response(cs), usable, c)
    ensures Cut(Response(cs), c) == ObjectText(cs[payload].members)
  {
    var k := LongestObjectIsChosen(cs, usable, c);
    assert k == payload;
  }

  /** Chunk `payload` is an object with members, strictly longer than every other one with members. */
  ghost predicate Longest(cs: seq<Chunk>, payload: nat) {
    && payload < |cs| && HasMembers(cs[payload])
    && forall i :: 0 <= i < |cs| && i != payload && HasMembers(cs[i]) ==>
         |ObjectText(cs[i].members)| < |ObjectText(cs[payload].members)|
  }

  /** The recovery returns the payload: given brace-free prose and JSON objects, bare or fenced, it comes back with
      the strictly longest object with members. */
  lemma PayloadIsRecovered(w: Wrapping, cs: seq<Chunk>, payload: nat, parses: string -> bool, usable: string -> bool)
    requires Fits(w, Response(cs)) && !parses(Response(cs))
    requires ValidChunks(cs) && ParserAgrees(cs, usable) && Longest(cs, payload)
    ensures Recovered(Wrap(w, Response(cs)), parses, usable) == Some(ObjectText(cs[payload].members))
  {
    var text, t := Wrap(w, Response(cs)), Response(cs);
    WrappingComesOff(w, t, parses, usable);
    FirstUsableIsBest(t, usable);
    var p := ObjectIsCandidate(cs, usable, payload);
    assert Recovered(text, parses, usable) != None;
    var c :| Chosen(t, usable, c) && Recovered(text, parses, usable).value == Cut(t, c);
    PayloadIsChosen(cs, payload, usable, c);
  }

  // ---------------------------------------------------------------- payloads in arbitrary text

  predicate Covers(c: Span, i: nat) {
    c.first < i <= c.last
  }

  /** The outer scan meets a span unless one it met earlier reaches over it. */
  lemma {:induction false} PickedUnlessCovered(spans: seq<Option<Span>>, p: nat, i: nat)
    requires SpansFit(spans) && p <= i < |spans| && spans[i].Some?
    ensures spans[i].value in Pick(spans, p) <==> forall c <- Pick(spans, p) :: !Covers(c, i)
    decreases i - p
  {
    PickIsWellPlaced(spans, p);
    var picked := Pick(spans, p);
    if p < i {
      if spans[p].None? {
        PickedUnlessCovered(spans, p + 1, i);
      } else {
        var s := spans[p].value;
        var rest := Pick(spans, s.last + 1);
        assert picked == [s] + rest;
        if s.last < i {
          PickedUnlessCovered(spans, s.last + 1, i);
        } else {
          PickIsWellPlaced(spans, s.last + 1);
          assert Covers(s, i) && s in picked;
        }
      }
    } else {
      var rest := Pick(spans, spans[i].value.last + 1);
      assert picked == [spans[i].value] + rest;
      PickIsWellPlaced(spans, spans[i].value.last + 1);
    }
  }

  /** In any text at all, a self-closing text at position `at` is a candidate exactly when no candidate that opens
      before it reaches over its opening brace; openers that never close are no obstacle. */
  lemma SelfClosingIsCandidate(t: string, at: nat, text: string, rest: string)
    requires SelfClosing(text) && at <= |t| && t[at..] == text + rest
    ensures Span(at, at + |text| - 1) in Candidates(t) <==> forall c <- Candidates(t) :: !Covers(c, at)
  {
    ClosedIsASpan(t, at, text, rest);
    PickedUnlessCovered(Spans(t), 0, at);
  }

  /** A usable object that no earlier candidate covers, strictly longer than every other usable candidate. */
  ghost predicate Uncovered(t: string, at: nat, ms: Members, rest: string, usable: string -> bool) {
    && ValidMembers(ms) && usable(ObjectText(ms)) && at <= |t| && t[at..] == ObjectText(ms) + rest
    && (forall c <- Candidates(t) :: !Covers(c, at))
    && forall c <- Candidates(t) :: c.first != at && UsableIn(t, usable, c) ==> Length(c) < |ObjectText(ms)|
  }

  lemma UncoveredIsChosen(t: string, at: nat, ms: Members, rest: string, usable: string -> bool) returns (p: Span)
    requires Uncovered(t, at, ms, rest, usable)
    ensures UsableIn(t, usable, p) && Cut(t, p) == ObjectText(ms) && p in Candidates(t)
    ensures forall c :: Chosen(t, usable, c) ==> c == p
  {
    ObjectSelfCloses(ms);
    SelfClosingIsCandidate(t, at, ObjectText(ms), rest);
    RestOfText(t, at, ObjectText(ms), rest);
    p := Span(at, at + |ObjectText(ms)| - 1);
    forall c | Chosen(t, usable, c) ensures c == p {
      assert c == p || Better(c, p);
      if c != p { SameStartIsSame(t, c, p); }
    }
  }

  /** Such an object is recovered from any text, bare or fenced. */
  lemma UncoveredPayloadIsRecovered(w: Wrapping, t: string, at: nat, ms: Members, rest: string,
                                    parses: string -> bool, usable: string -> bool)
    requires Fits(w, t) && !parses(t) && Uncovered(t, at, ms, rest, usable)
    ensures Recovered(Wrap(w, t), parses, usable) == Some(ObjectText(ms))
  {
    WrappingComesOff(w, t, parses, usable);
    FirstUsableIsBest(t, usable);
    var p := UncoveredIsChosen(t, at, ms, rest, usable);
    assert Recovered(Wrap(w, t), parses, usable) != None;
    var c :| Chosen(t, usable, c) && Recovered(Wrap(w, t), parses, usable).value == Cut(t, c);
  }

  lemma SameStartIsSame(t: string, a: Span, b: Span)
    requires a in Candidates(t) && b in Candidates(t) && a.first == b.first
    ensures a == b
  {
    CandidatesAreOrdered(t);
    var cs := Candidates(t);
    var i, j :| 0 <= i < |cs| && 0 <= j < |cs| && cs[i] == a && cs[j] == b;
  }
}
