/** Brace expansion of coupling-map members. */
module Braces {
  import opened Wrappers
  import opened Text

  /** The number of closing braces. */
  function Closers(s: string): nat {
    multiset(s)['}']
  }

  lemma GroupHasACloser(s: string, open: nat, close: nat)
    requires open < close < |s| && s[close] == '}'
    ensures Closers(s[..open]) + Closers(s[close + 1..]) < Closers(s)
  {
    assert s == s[..open] + (s[open..close] + ([s[close]] + s[close + 1..]));
  }

  lemma ReplacementClosers(pre: string, alt: string, post: string)
    requires '}' !in alt
    ensures Closers(pre + TrimSpace(alt) + post) == Closers(pre) + Closers(post)
  {
    TrimSpaceCuts(alt);
    assert '}' !in TrimSpace(alt);
  }

  /** The positions of the first `{` and of the first `}` after it. */
  function FirstGroup(s: string): (r: Option<(nat, nat)>)
    ensures r.Some? ==> r.value.0 < r.value.1 < |s|
  {
    var open := IndexOf(s, '{');
    if open < 0 then None
    else
      var closeRel := IndexOf(s[open..], '}');
      if closeRel < 0 then None else Some((open, open + closeRel))
  }

  lemma FirstGroupShrinks(s: string)
    requires FirstGroup(s).Some?
    ensures var (open, close) := FirstGroup(s).value;
      CloserFree(Split(s[open + 1..close], ',')) && Closers(s[..open]) + Closers(s[close + 1..]) < Closers(s)
  {
    var (open, close) := FirstGroup(s).value;
    GroupHasACloser(s, open, close);
    NoCloserBetween(s, open, close);
    PiecesAreSubstrings(s[open + 1..close], ',', '}');
  }

  lemma NoCloserBetween(s: string, open: nat, close: nat)
    requires open < close < |s| && IndexOf(s[open..], '}') == close - open
    ensures '}' !in s[open + 1..close]
  {
    var inside := s[open..][..close - open];
    assert forall k :: open < k < close ==> s[k] == inside[k - open];
  }

  /** `expandBraces`: the first `{...}` group becomes one string per alternative, recursively. Each round
      consumes a closing brace, so it ends on every string, nested and unbalanced braces included. */
  function ExpandBraces(s: string): seq<string>
    decreases Closers(s), 0
  {
    match FirstGroup(s)
    case None => [s]
    case Some((open, close)) =>
      FirstGroupShrinks(s);
      ExpandEach(s[..open], Split(s[open + 1..close], ','), s[close + 1..])
  }

  predicate CloserFree(alts: seq<string>) {
    forall i :: 0 <= i < |alts| ==> '}' !in alts[i]
  }

  function ExpandEach(pre: string, alts: seq<string>, post: string): seq<string>
    requires CloserFree(alts)
    decreases Closers(pre) + Closers(post), |alts| + 1
  {
    if alts == [] then []
    else
      assert Closers(pre + TrimSpace(alts[0]) + post) == Closers(pre) + Closers(post) by {
        ReplacementClosers(pre, alts[0], post);
      }
      ExpandBraces(pre + TrimSpace(alts[0]) + post) + ExpandEach(pre, alts[1..], post)
  }

  lemma {:induction false} PiecesAreSubstrings(s: string, sep: char, c: char)
    requires c !in s
    ensures forall i :: 0 <= i < |Split(s, sep)| ==> c !in Split(s, sep)[i]
    decreases |s|
  {
    var k := IndexOf(s, sep);
    if k >= 0 { PiecesAreSubstrings(s[k + 1..], sep, c); }
  }

  // ---------------------------------------------------------------- flat patterns

  datatype Part = Literal(text: string) | Group(alts: seq<string>)

  predicate BraceFree(s: string) {
    '{' !in s && '}' !in s
  }

  /** Brace-free literals, and flat groups of at least one alternative. */
  predicate FlatPart(p: Part) {
    match p
    case Literal(text) => BraceFree(text)
    case Group(alts) => alts != [] && forall i :: 0 <= i < |alts| ==> BraceFree(alts[i]) && ',' !in alts[i]
  }

  function Render(parts: seq<Part>): string {
    if parts == [] then ""
    else
      (match parts[0]
       case Literal(text) => text
       case Group(alts) => "{" + Join(alts, ',') + "}")
      + Render(parts[1..])
  }

  function Prefixed(p: string, xs: seq<string>): seq<string> {
    if xs == [] then [] else [p + xs[0]] + Prefixed(p, xs[1..])
  }

  function Choices(alts: seq<string>, tails: seq<string>): seq<string> {
    if alts == [] then [] else Prefixed(TrimSpace(alts[0]), tails) + Choices(alts[1..], tails)
  }

  /** The ordered Cartesian product: leftmost group slowest, alternatives trimmed. */
  function Product(parts: seq<Part>): seq<string> {
    if parts == [] then [""]
    else
      match parts[0]
      case Literal(text) => Prefixed(text, Product(parts[1..]))
      case Group(alts) => Choices(alts, Product(parts[1..]))
  }

  lemma {:induction false} PrefixedTwice(p: string, q: string, xs: seq<string>)
    ensures Prefixed(p, Prefixed(q, xs)) == Prefixed(p + q, xs)
  {
    if xs != [] {
      PrefixedTwice(p, q, xs[1..]);
      assert p + (q + xs[0]) == (p + q) + xs[0];
    }
  }

  lemma {:induction false} PrefixedConcat(p: string, xs: seq<string>, ys: seq<string>)
    ensures Prefixed(p, xs + ys) == Prefixed(p, xs) + Prefixed(p, ys)
  {
    if xs == [] {
      assert xs + ys == ys;
    } else {
      PrefixedConcat(p, xs[1..], ys);
      assert (xs + ys)[1..] == xs[1..] + ys;
    }
  }

  lemma {:induction false} JoinBraceFree(alts: seq<string>)
    requires forall i :: 0 <= i < |alts| ==> BraceFree(alts[i])
    ensures BraceFree(Join(alts, ','))
  {
    if |alts| > 1 { JoinBraceFree(alts[1..]); }
  }

  lemma GroupIsFound(s: string, pre: string, body: string, post: string)
    requires BraceFree(pre) && BraceFree(body) && s == pre + ['{'] + (body + ['}'] + post)
    ensures FirstGroup(s) == Some((|pre|, |pre| + |body| + 1))
  {
    IndexOfAppend(pre, body + ['}'] + post, '{');
    IndexOfAppend(['{'] + body, post, '}');
    assert s[|pre|..] == (['{'] + body) + ['}'] + post;
  }

  lemma GroupSlices(s: string, pre: string, body: string, post: string)
    requires s == pre + ['{'] + (body + ['}'] + post)
    ensures s[..|pre|] == pre && s[|pre| + 1..|pre| + |body| + 1] == body && s[|pre| + |body| + 2..] == post
  {
  }

  lemma ExpandFirstGroup(pre: string, alts: seq<string>, post: string)
    requires BraceFree(pre) && FlatPart(Group(alts))
    ensures CloserFree(alts)
    ensures ExpandBraces(pre + "{" + Join(alts, ',') + "}" + post) == ExpandEach(pre, alts, post)
  {
    var body := Join(alts, ',');
    JoinBraceFree(alts);
    SplitJoin(alts, ',');
    ExpandFoundGroup(pre, body, post);
  }

  lemma ExpandFoundGroup(pre: string, body: string, post: string)
    requires BraceFree(pre) && BraceFree(body)
    ensures CloserFree(Split(body, ','))
    ensures ExpandBraces(pre + "{" + body + "}" + post) == ExpandEach(pre, Split(body, ','), post)
  {
    var s := pre + "{" + body + "}" + post;
    assert s == pre + ['{'] + (body + ['}'] + post);
    GroupIsFound(s, pre, body, post);
    UnfoldAt(s, |pre|, |pre| + |body| + 1);
    GroupSlices(s, pre, body, post);
  }

  lemma UnfoldAt(s: string, open: nat, close: nat)
    requires FirstGroup(s) == Some((open, close))
    ensures CloserFree(Split(s[open + 1..close], ','))
    ensures ExpandBraces(s) == ExpandEach(s[..open], Split(s[open + 1..close], ','), s[close + 1..])
  {
    FirstGroupShrinks(s);
  }

  lemma NothingToExpand(pre: string)
    requires BraceFree(pre)
    ensures ExpandBraces(pre) == [pre] == Prefixed(pre, [""])
  {
    assert IndexOf(pre, '{') == -1;
    assert pre + "" == pre;
    assert Prefixed(pre, []) == [];
  }

  lemma {:induction false} ExpandAfter(pre: string, parts: seq<Part>)
    requires BraceFree(pre) && forall p <- parts :: FlatPart(p)
    ensures ExpandBraces(pre + Render(parts)) == Prefixed(pre, Product(parts))
    decreases |parts|, 0
  {
    if parts == [] {
      assert pre + Render(parts) == pre;
      NothingToExpand(pre);
    } else {
      var rest := parts[1..];
      match parts[0]
      case Literal(text) =>
        assert FlatPart(parts[0]);
        assert pre + Render(parts) == pre + text + Render(rest);
        ExpandAfter(pre + text, rest);
        PrefixedTwice(pre, text, Product(rest));
      case Group(alts) =>
        assert FlatPart(parts[0]);
        assert pre + Render(parts) == pre + "{" + Join(alts, ',') + "}" + Render(rest);
        ExpandFirstGroup(pre, alts, Render(rest));
        ExpandChoices(pre, alts, rest);
    }
  }

  lemma {:induction false} ExpandChoices(pre: string, alts: seq<string>, rest: seq<Part>)
    requires BraceFree(pre) && forall p <- rest :: FlatPart(p)
    requires CloserFree(alts) && forall i :: 0 <= i < |alts| ==> BraceFree(alts[i])
    ensures ExpandEach(pre, alts, Render(rest)) == Prefixed(pre, Choices(alts, Product(rest)))
    decreases |rest|, |alts| + 1
  {
    if alts != [] {
      var alt := TrimSpace(alts[0]);
      TrimSpaceCuts(alts[0]);
      ExpandAfter(pre + alt, rest);
      PrefixedTwice(pre, alt, Product(rest));
      ExpandChoices(pre, alts[1..], rest);
      PrefixedConcat(pre, Prefixed(alt, Product(rest)), Choices(alts[1..], Product(rest)));
    }
  }

  /** On any flat pattern, expansion is exactly the ordered product of the trimmed alternatives. */
  lemma ExpandIsProduct(parts: seq<Part>)
    requires forall p <- parts :: FlatPart(p)
    ensures ExpandBraces(Render(parts)) == Product(parts)
  {
    ExpandAfter("", parts);
    assert "" + Render(parts) == Render(parts);
    PrefixedEmpty(Product(parts));
  }

  lemma {:induction false} PrefixedEmpty(xs: seq<string>)
    ensures Prefixed("", xs) == xs
  {
    if xs != [] {
      PrefixedEmpty(xs[1..]);
      assert "" + xs[0] == xs[0];
    }
  }
}
