/** Repo-relative paths: lexical cleaning, the escape test, and segment-prefix matching. */
module Paths {
  import opened Wrappers
  import opened Text

  const DOT := "."
  const DOT_DOT := ".."

  function Segments(path: string): seq<string> {
    Split(path, '/')
  }

  predicate Plain(seg: string) {
    seg != "" && seg != DOT && seg != DOT_DOT
  }

  /** One step of `filepath.Clean` over the segments kept so far. */
  function CleanStep(kept: seq<string>, seg: string, rooted: bool): seq<string> {
    if seg == "" || seg == DOT then kept
    else if seg != DOT_DOT then kept + [seg]
    else if kept != [] && kept[|kept| - 1] != DOT_DOT then kept[..|kept| - 1]
    else if rooted then kept
    else kept + [DOT_DOT]
  }

  function CleanSegments(segs: seq<string>, rooted: bool): seq<string> {
    if segs == [] then []
    else CleanStep(CleanSegments(segs[..|segs| - 1], rooted), segs[|segs| - 1], rooted)
  }

  /** `filepath.Clean` on a slash-separated path. */
  function Clean(path: string): string {
    var rooted := path != "" && path[0] == '/';
    var body := Join(CleanSegments(Segments(path), rooted), '/');
    if rooted then "/" + body else if body == "" then DOT else body
  }

  /** `cleanRepoRelativePath`: the cleaned path, or nothing for an empty, absolute or escaping one. */
  function CleanRepoRelative(raw: string): Option<string> {
    if raw == "" then None
    else
      var cleaned := Clean(raw);
      if (cleaned != "" && cleaned[0] == '/') || cleaned == DOT_DOT || "../" <= cleaned then None
      else Some(cleaned)
  }

  // ---------------------------------------------------------------- the walk above the root

  /** How far below its start a walk along the segments ends. */
  function Height(segs: seq<string>): int {
    if segs == [] then 0
    else
      var last := segs[|segs| - 1];
      Height(segs[..|segs| - 1]) + (if last == DOT_DOT then -1 else if last == "" || last == DOT then 0 else 1)
  }

  ghost predicate NeverAboveRoot(segs: seq<string>) {
    forall n :: 0 <= n <= |segs| ==> Height(segs[..n]) >= 0
  }

  lemma StepTracksHeight(front: seq<string>, last: string)
    requires var kept := CleanSegments(front, false);
      if NeverAboveRoot(front) then |kept| == Height(front) && forall s <- kept :: Plain(s)
      else kept != [] && kept[0] == DOT_DOT
    ensures var kept := CleanSegments(front + [last], false);
      if NeverAboveRoot(front) && Height(front + [last]) >= 0
      then |kept| == Height(front + [last]) && forall s <- kept :: Plain(s)
      else kept != [] && kept[0] == DOT_DOT
  {
    var segs, kept := front + [last], CleanSegments(front, false);
    assert segs[..|segs| - 1] == front && segs[|segs| - 1] == last;
    assert |DOT_DOT| == 2 && |DOT| == 1;
    assert CleanSegments(segs, false) == CleanStep(kept, last, false);
    assert Height(segs) == Height(front) + (if last == DOT_DOT then -1 else if last == "" || last == DOT then 0 else 1);
    if kept != [] { assert kept[|kept| - 1] in kept; }
  }

  lemma {:induction false} CleanTracksHeight(segs: seq<string>)
    ensures var kept := CleanSegments(segs, false);
      if NeverAboveRoot(segs) then |kept| == Height(segs) && forall s <- kept :: Plain(s)
      else kept != [] && kept[0] == DOT_DOT
  {
    assert segs[..|segs|] == segs;
    if segs != [] {
      var front := segs[..|segs| - 1];
      CleanTracksHeight(front);
      assert forall n :: 0 <= n <= |front| ==> front[..n] == segs[..n];
      assert NeverAboveRoot(segs) <==> NeverAboveRoot(front) && Height(segs) >= 0 by {
        if NeverAboveRoot(segs) {
          forall n | 0 <= n <= |front| ensures Height(front[..n]) >= 0 {
            assert Height(segs[..n]) >= 0;
          }
          assert Height(segs[..|segs|]) >= 0;
        } else {
          var n :| 0 <= n <= |segs| && Height(segs[..n]) < 0;
          if n < |segs| { assert Height(front[..n]) < 0; }
        }
      }
      StepTracksHeight(front, segs[|segs| - 1]);
      assert front + [segs[|segs| - 1]] == segs;
    }
  }

  lemma {:induction false} CleanKeepsSlashFree(segs: seq<string>, rooted: bool)
    requires forall s <- segs :: '/' !in s
    ensures forall s <- CleanSegments(segs, rooted) :: '/' !in s
  {
    if segs != [] { CleanKeepsSlashFree(segs[..|segs| - 1], rooted); }
  }

  // ---------------------------------------------------------------- segment prefixes

  lemma Recut(p: string, k: nat, rest: string)
    requires k < |p|
    ensures p + [p[k]] + rest == p[..k] + [p[k]] + (p[k + 1..] + [p[k]] + rest)
  {
    CutAt(p, k);
  }

  lemma SplitFirst(p: string, c: char)
    requires IndexOf(p, c) >= 0
    ensures Split(p, c) == [p[..IndexOf(p, c)]] + Split(p[IndexOf(p, c) + 1..], c)
  {
  }

  lemma {:induction false} SplitConcat(p: string, rest: string, c: char)
    ensures Split(p + [c] + rest, c) == Split(p, c) + Split(rest, c)
    decreases |p|
  {
    var k := IndexOf(p, c);
    if k < 0 {
      SplitStep(p, rest, c);
    } else {
      Recut(p, k, rest);
      SplitStep(p[..k], p[k + 1..] + [c] + rest, c);
      SplitConcat(p[k + 1..], rest, c);
      Associates([p[..k]], Split(p[k + 1..], c), Split(rest, c));
      SplitFirst(p, c);
    }
  }

  lemma {:induction false} JoinConcat(a: seq<string>, b: seq<string>, c: char)
    requires a != [] && b != []
    ensures Join(a + b, c) == Join(a, c) + [c] + Join(b, c)
  {
    if |a| == 1 {
      assert (a + b)[1..] == b;
    } else {
      JoinConcat(a[1..], b, c);
      assert (a + b)[1..] == a[1..] + b;
    }
  }

  /** The gate's string test is exactly "the segments of `pre` are a prefix of the segments of `path`". */
  lemma StringTestIsSegmentPrefix(pre: string, path: string)
    ensures path == pre || pre + "/" <= path <==> Segments(pre) <= Segments(path)
  {
    if pre + "/" <= path {
      SplitConcat(pre, path[|pre| + 1..], '/');
      assert path == pre + ['/'] + path[|pre| + 1..];
    }
    if Segments(pre) <= Segments(path) {
      SegmentPrefixIsStringPrefix(pre, path);
    }
  }

  lemma SegmentPrefixIsStringPrefix(pre: string, path: string)
    requires Segments(pre) <= Segments(path)
    ensures path == pre || pre + "/" <= path
  {
    JoinSplit(pre, '/');
    JoinSplit(path, '/');
    var a, more := Segments(pre), Segments(path)[|Segments(pre)|..];
    assert Segments(path) == a + more;
    if more == [] {
      assert a + more == a;
    } else {
      JoinConcat(a, more, '/');
      assert path == pre + ['/'] + Join(more, '/');
    }
  }

  // ---------------------------------------------------------------- acceptance

  /** The segments an accepted path resolves to; the root itself has none. */
  function Resolve(raw: string): seq<string> {
    CleanSegments(Segments(raw), false)
  }

  lemma CleanOfRelative(raw: string)
    requires raw != "" && raw[0] != '/'
    ensures Clean(raw) == if Resolve(raw) == [] then DOT else Join(Resolve(raw), '/')
    ensures Resolve(raw) != [] ==> Segments(Clean(raw)) == Resolve(raw)
    ensures forall s <- Resolve(raw) :: s != "" && s != DOT && '/' !in s
  {
    var kept := Resolve(raw);
    CleanKeepsSlashFree(Segments(raw), false);
    NoEmptySegments(Segments(raw));
    if kept != [] {
      SplitJoin(kept, '/');
      assert kept[0] in kept;
      assert Join(kept, '/') != "";
    }
  }

  lemma {:induction false} NoEmptySegments(segs: seq<string>)
    ensures forall s <- CleanSegments(segs, false) :: s != "" && s != DOT
  {
    if segs != [] {
      NoEmptySegments(segs[..|segs| - 1]);
      StepKeepsNonEmpty(CleanSegments(segs[..|segs| - 1], false), segs[|segs| - 1]);
    }
  }

  lemma StepKeepsNonEmpty(kept: seq<string>, seg: string)
    requires forall s <- kept :: s != "" && s != DOT
    ensures forall s <- CleanStep(kept, seg, false) :: s != "" && s != DOT
  {
    assert |DOT_DOT| == 2 && |DOT| == 1;
    forall s | s in CleanStep(kept, seg, false) ensures s in kept || s == seg || s == DOT_DOT {
    }
  }

  lemma CleanedStartsPlain(kept: seq<string>)
    requires kept != [] && forall s <- kept :: s != "" && '/' !in s
    ensures Join(kept, '/') != "" && Join(kept, '/')[0] != '/'
  {
    assert kept[0] in kept;
    assert Join(kept, '/')[0] == kept[0][0];
  }

  /** The escape test on a cleaned path looks at its first segment. */
  lemma EscapeTest(cleaned: string)
    ensures cleaned == DOT_DOT || "../" <= cleaned <==> Segments(cleaned)[0] == DOT_DOT
  {
    StringTestIsSegmentPrefix(DOT_DOT, cleaned);
    assert Segments(DOT_DOT) == [DOT_DOT];
    assert DOT_DOT + "/" == "../";
    assert [DOT_DOT] <= Segments(cleaned) <==> Segments(cleaned)[0] == DOT_DOT;
  }

  lemma FirstSegment(raw: string)
    requires raw != "" && raw[0] != '/'
    ensures Clean(raw) != "" && Clean(raw)[0] != '/'
    ensures Segments(Clean(raw))[0] == if Resolve(raw) == [] then DOT else Resolve(raw)[0]
  {
    CleanOfRelative(raw);
    if Resolve(raw) == [] {
      assert Segments(DOT) == [DOT];
    } else {
      CleanedStartsPlain(Resolve(raw));
    }
  }

  /** A relative path is refused exactly when what it resolves to starts with `..`. */
  lemma RelativeIsJudged(raw: string)
    requires raw != "" && raw[0] != '/'
    ensures CleanRepoRelative(raw) ==
              if Resolve(raw) != [] && Resolve(raw)[0] == DOT_DOT then None else Some(Clean(raw))
  {
    FirstSegment(raw);
    EscapeTest(Clean(raw));
    assert |DOT| != |DOT_DOT|;
  }

  lemma AbsoluteIsRefused(raw: string)
    requires raw != "" && raw[0] == '/'
    ensures CleanRepoRelative(raw).None?
  {
    assert Clean(raw)[0] == '/';
  }

  /** A non-empty path is accepted exactly when it is relative and no prefix of its segment walk climbs
      above the root; an accepted path is cleaned to the plain segments the walk leaves. */
  lemma AcceptedIffNeverAboveRoot(raw: string)
    requires raw != ""
    ensures CleanRepoRelative(raw).Some? <==> raw[0] != '/' && NeverAboveRoot(Segments(raw))
    ensures CleanRepoRelative(raw).Some? ==>
              && (forall s <- Resolve(raw) :: Plain(s) && '/' !in s)
              && |Resolve(raw)| == Height(Segments(raw))
              && CleanRepoRelative(raw).value == (if Resolve(raw) == [] then DOT else Join(Resolve(raw), '/'))
              && (Resolve(raw) != [] ==> Segments(CleanRepoRelative(raw).value) == Resolve(raw))
  {
    if raw[0] == '/' {
      AbsoluteIsRefused(raw);
    } else {
      RelativeIsJudged(raw);
      CleanTracksHeight(Segments(raw));
      CleanOfRelative(raw);
      if Resolve(raw) != [] { assert Resolve(raw)[0] in Resolve(raw); }
    }
  }
}
