/** The laws of lexical path cleaning: what it deletes, and which paths it leaves alone. */
module PathLaws {
  import opened Wrappers
  import opened Text
  import opened Paths

  lemma CleanSnoc(a: seq<string>, s: string, rooted: bool)
    ensures CleanSegments(a + [s], rooted) == CleanStep(CleanSegments(a, rooted), s, rooted)
  {
    assert (a + [s])[..|a|] == a;
  }

  /** What follows is cleaned against what the front cleans to, and nothing else. */
  lemma {:induction false} SameFront(a: seq<string>, b: seq<string>, rest: seq<string>, rooted: bool)
    requires CleanSegments(a, rooted) == CleanSegments(b, rooted)
    ensures CleanSegments(a + rest, rooted) == CleanSegments(b + rest, rooted)
  {
    if rest == [] {
      assert a + rest == a && b + rest == b;
    } else {
      var front, last := rest[..|rest| - 1], rest[|rest| - 1];
      SameFront(a, b, front, rooted);
      CleanSnoc(a + front, last, rooted);
      CleanSnoc(b + front, last, rooted);
      assert rest == front + [last];
      Associates(a, front, [last]);
      Associates(b, front, [last]);
    }
  }

  /** An empty or `.` segment can be deleted anywhere. */
  lemma EmptySegmentIsDropped(a: seq<string>, s: string, rest: seq<string>, rooted: bool)
    requires s == "" || s == DOT
    ensures CleanSegments(a + [s] + rest, rooted) == CleanSegments(a + rest, rooted)
  {
    CleanSnoc(a, s, rooted);
    SameFront(a + [s], a, rest, rooted);
  }

  /** A plain segment and the `..` behind it can be deleted together anywhere. */
  lemma BackTrackIsDropped(a: seq<string>, p: string, rest: seq<string>, rooted: bool)
    requires Plain(p)
    ensures CleanSegments(a + [p, DOT_DOT] + rest, rooted) == CleanSegments(a + rest, rooted)
  {
    assert a + [p, DOT_DOT] == a + [p] + [DOT_DOT];
    CleanSnoc(a, p, rooted);
    CleanSnoc(a + [p], DOT_DOT, rooted);
    SameFront(a + [p, DOT_DOT], a, rest, rooted);
  }

  /** Above the root there is only the root. */
  lemma RootIsItsOwnParent(rest: seq<string>)
    ensures CleanSegments([DOT_DOT] + rest, true) == CleanSegments(rest, true)
  {
    CleanSnoc([], DOT_DOT, true);
    SameFront([DOT_DOT], [], rest, true);
    assert [] + rest == rest && [] + [DOT_DOT] == [DOT_DOT];
  }

  /** Plain segments, behind steps up if the path may leave its start. */
  ghost predicate Normal(segs: seq<string>, rooted: bool) {
    && (forall i :: 0 <= i < |segs| ==> Plain(segs[i]) || (segs[i] == DOT_DOT && !rooted))
    && forall i :: 0 < i < |segs| && segs[i] == DOT_DOT ==> segs[i - 1] == DOT_DOT
  }

  lemma NormalFront(segs: seq<string>, rooted: bool)
    requires segs != [] && Normal(segs, rooted)
    ensures Normal(segs[..|segs| - 1], rooted)
  {
    var front := segs[..|segs| - 1];
    assert forall i :: 0 <= i < |front| ==> front[i] == segs[i];
  }

  lemma StepKeepsLast(kept: seq<string>, seg: string, rooted: bool)
    requires Plain(seg) || (seg == DOT_DOT && !rooted)
    requires kept != [] && seg == DOT_DOT ==> kept[|kept| - 1] == DOT_DOT
    ensures CleanStep(kept, seg, rooted) == kept + [seg]
  {
    assert |DOT_DOT| == 2 && |DOT| == 1;
  }

  /** A normal list is its own cleaned form: every segment is kept, in order. */
  lemma {:induction false} NormalIsClean(segs: seq<string>, rooted: bool)
    requires Normal(segs, rooted)
    ensures CleanSegments(segs, rooted) == segs
  {
    if segs != [] {
      var front, last := segs[..|segs| - 1], segs[|segs| - 1];
      NormalFront(segs, rooted);
      NormalIsClean(front, rooted);
      StepKeepsLast(front, last, rooted);
      assert segs == front + [last];
    }
  }

  /** Cleaning always ends in a normal list. */
  lemma {:induction false} CleanIsNormal(segs: seq<string>, rooted: bool)
    ensures Normal(CleanSegments(segs, rooted), rooted)
  {
    if segs != [] {
      CleanIsNormal(segs[..|segs| - 1], rooted);
      StepKeepsNormal(CleanSegments(segs[..|segs| - 1], rooted), segs[|segs| - 1], rooted);
    }
  }

  lemma StepKeepsNormal(kept: seq<string>, seg: string, rooted: bool)
    requires Normal(kept, rooted)
    ensures Normal(CleanStep(kept, seg, rooted), rooted)
  {
  }

  /** A relative path of plain segments resolves to its own segments and is accepted as it stands. */
  lemma PlainPathIsItself(raw: string)
    requires forall s <- Segments(raw) :: Plain(s)
    ensures Resolve(raw) == Segments(raw)
    ensures CleanRepoRelative(raw) == Some(raw)
  {
    var segs := Segments(raw);
    assert segs[0] in segs;
    forall i | 0 <= i < |segs| ensures Plain(segs[i]) && segs[i] != DOT_DOT {
      assert segs[i] in segs;
    }
    NormalIsClean(segs, false);
    JoinSplit(raw, '/');
    CleanedStartsPlain(segs);
    RelativeIsJudged(raw);
  }

  /** An accepted path, given again, is accepted unchanged. */
  lemma CleaningIsIdempotent(raw: string)
    requires CleanRepoRelative(raw).Some?
    ensures CleanRepoRelative(CleanRepoRelative(raw).value) == CleanRepoRelative(raw)
  {
    AcceptedIffNeverAboveRoot(raw);
    if Resolve(raw) == [] {
      DotIsAccepted();
    } else {
      PlainPathIsItself(CleanRepoRelative(raw).value);
    }
  }

  lemma DotIsAccepted()
    ensures CleanRepoRelative(DOT) == Some(DOT)
  {
    assert Segments(DOT) == [DOT];
    assert CleanSegments([DOT], false) == [];
    RelativeIsJudged(DOT);
  }
}
