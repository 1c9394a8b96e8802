/** The parent-chain walk of the plan gate: loop detection in a map with at most one edge per node. */
module ParentWalk {
  import opened Wrappers

  type ParentMap = map<string, string>

  datatype Visit = Walking | Done

  /** A reported chain: `path` followed by `next`, where `next` already occurs in `path`. */
  datatype LoopReport = LoopReport(path: seq<string>, next: string)

  /** `k` parent steps up from `u`, if there are that many. */
  function Follow(parent: ParentMap, u: string, k: nat): Option<string>
    decreases k
  {
    if k == 0 then Some(u)
    else if u in parent then Follow(parent, parent[u], k - 1)
    else None
  }

  ghost predicate OnCycle(parent: ParentMap, u: string) {
    exists k: nat :: k >= 1 && Follow(parent, u, k) == Some(u)
  }

  ghost predicate ParentChain(parent: ParentMap, path: seq<string>) {
    forall k :: 0 <= k < |path| - 1 ==> path[k] in parent && parent[path[k]] == path[k + 1]
  }

  ghost predicate Distinct(path: seq<string>) {
    forall i, j :: 0 <= i < j < |path| ==> path[i] != path[j]
  }

  /** The reported chain really runs along parent links into itself. */
  ghost predicate Genuine(parent: ParentMap, r: LoopReport) {
    && r.path != [] && Distinct(r.path) && ParentChain(parent, r.path)
    && r.path[|r.path| - 1] in parent && parent[r.path[|r.path| - 1]] == r.next
    && r.next in r.path
  }

  function Position(path: seq<string>, u: string): (r: nat)
    requires u in path
    ensures r < |path| && path[r] == u
  {
    if path[0] == u then 0 else 1 + Position(path[1..], u)
  }

  /** The loop itself, without the lead-in from the starting item. */
  function LoopNodes(r: LoopReport): set<string> {
    if r.next in r.path then set u | u in r.path[Position(r.path, r.next)..] else {}
  }

  ghost predicate Closed(parent: ParentMap, s: set<string>) {
    forall u :: u in s && u in parent ==> parent[u] in s
  }

  lemma {:induction false} FollowStaysInside(parent: ParentMap, s: set<string>, u: string, k: nat)
    requires Closed(parent, s) && u in s
    ensures Follow(parent, u, k).Some? ==> Follow(parent, u, k).value in s
    decreases k
  {
    if k > 0 && u in parent { FollowStaysInside(parent, s, parent[u], k - 1); }
  }

  /** A node outside a closed set whose parent is inside (or absent) is on no cycle. */
  lemma EnteringIsNotOnCycle(parent: ParentMap, s: set<string>, u: string)
    requires Closed(parent, s) && u !in s
    requires u in parent ==> parent[u] in s
    ensures !OnCycle(parent, u) && Closed(parent, s + {u})
  {
    forall k: nat | k >= 1 ensures Follow(parent, u, k) != Some(u) {
      if u in parent { FollowStaysInside(parent, s, parent[u], k - 1); }
    }
  }

  lemma CutChain(parent: ParentMap, path: seq<string>, idx: nat)
    requires Distinct(path) && ParentChain(parent, path) && idx < |path|
    ensures Distinct(path[..idx]) && ParentChain(parent, path[..idx])
    ensures idx > 0 ==> path[idx - 1] in parent && parent[path[idx - 1]] == path[idx]
  {
    if idx > 0 { assert parent[path[idx - 1]] == path[idx - 1 + 1]; }
  }

  lemma FrontAndLast(s: set<string>, path: seq<string>)
    requires Distinct(path) && path != []
    ensures var last, front := path[|path| - 1], path[..|path| - 1];
      && (forall u :: u in path <==> u in front || u == last)
      && last !in front
      && s + {last} + (set u | u in front) == s + set u | u in path
  {
    var last, front := path[|path| - 1], path[..|path| - 1];
    assert path == front + [last];
    forall k | 0 <= k < |front| ensures front[k] != last {
      assert path[k] != path[|path| - 1];
    }
  }

  /** The same for a whole chain that runs into a closed set or ends. */
  lemma {:induction false} LeadInIsNotOnCycle(parent: ParentMap, s: set<string>, path: seq<string>)
    requires Closed(parent, s) && Distinct(path) && ParentChain(parent, path)
    requires forall u <- path :: u !in s
    requires path != [] && path[|path| - 1] in parent ==> parent[path[|path| - 1]] in s
    ensures forall u <- path :: !OnCycle(parent, u)
    ensures Closed(parent, s + set u | u in path)
    decreases |path|
  {
    if path == [] {
      assert s + (set u | u in path) == s;
    } else {
      var last, front := path[|path| - 1], path[..|path| - 1];
      FrontAndLast(s, path);
      CutChain(parent, path, |path| - 1);
      EnteringIsNotOnCycle(parent, s, last);
      LeadInIsNotOnCycle(parent, s + {last}, front);
    }
  }

  lemma {:induction false} FollowChain(parent: ParentMap, path: seq<string>, a: nat, b: nat)
    requires ParentChain(parent, path) && a <= b < |path|
    ensures Follow(parent, path[a], b - a) == Some(path[b])
    decreases b - a
  {
    if a < b {
      assert parent[path[a]] == path[a + 1];
      FollowChain(parent, path, a + 1, b);
    }
  }

  lemma {:induction false} FollowAdds(parent: ParentMap, u: string, a: nat, b: nat)
    requires Follow(parent, u, a).Some?
    ensures Follow(parent, u, a + b) == Follow(parent, Follow(parent, u, a).value, b)
    decreases a
  {
    if a > 0 { FollowAdds(parent, parent[u], a - 1, b); }
  }

  /** Every node of a reported loop is on a cycle, so a report is never spurious. */
  lemma LoopNodesAreOnCycle(parent: ParentMap, r: LoopReport)
    requires Genuine(parent, r)
    ensures r.next in LoopNodes(r)
    ensures forall u <- LoopNodes(r) :: OnCycle(parent, u)
  {
    var idx, end := Position(r.path, r.next), |r.path| - 1;
    assert r.path[idx..][0] == r.next;
    forall u | u in LoopNodes(r) ensures OnCycle(parent, u) {
      var k :| 0 <= k < |r.path[idx..]| && r.path[idx..][k] == u;
      var a := idx + k;
      FollowChain(parent, r.path, a, end);
      FollowAdds(parent, u, end - a, 1);
      assert Follow(parent, r.path[end], 1) == Some(r.next) by {
        assert Follow(parent, r.next, 0) == Some(r.next);
      }
      FollowChain(parent, r.path, idx, a);
      FollowAdds(parent, u, end - a + 1, a - idx);
      assert Follow(parent, u, end - a + 1 + (a - idx)) == Some(u);
    }
  }

  /** The nodes of a report are closed under parent together with everything already done. */
  lemma LoopIsClosed(parent: ParentMap, done: set<string>, r: LoopReport)
    requires Genuine(parent, r) && Closed(parent, done)
    ensures Closed(parent, done + LoopNodes(r))
  {
    var idx := Position(r.path, r.next);
    var loop := r.path[idx..];
    forall u | u in loop && u in parent ensures parent[u] in LoopNodes(r) {
      var k :| 0 <= k < |loop| && loop[k] == u;
      if k + 1 < |loop| {
        assert parent[r.path[idx + k]] == r.path[idx + k + 1];
        assert loop[k + 1] == parent[u];
      } else {
        assert loop[0] == r.next;
      }
    }
  }

  /** What one walk from an unvisited item contributes, given the closed set `done` of finished items. */
  ghost predicate WalkResult(parent: ParentMap, done: set<string>, path: seq<string>, found: seq<LoopReport>) {
    && Distinct(path)
    && (forall u <- path :: u !in done)
    && Closed(parent, done + set u | u in path)
    && |found| <= 1
    && (forall r <- found :: Genuine(parent, r) && r.path == path)
    && (forall u <- path :: OnCycle(parent, u) ==> |found| == 1 && u in LoopNodes(found[0]))
  }

  lemma OpenWalk(parent: ParentMap, done: set<string>, path: seq<string>)
    requires Closed(parent, done) && path != [] && Distinct(path) && ParentChain(parent, path)
    requires forall u <- path :: u !in done
    requires path[|path| - 1] in parent ==> parent[path[|path| - 1]] in done
    ensures WalkResult(parent, done, path, [])
  {
    LeadInIsNotOnCycle(parent, done, path);
  }

  function LeadIn(r: LoopReport): seq<string> {
    if r.next in r.path then r.path[..Position(r.path, r.next)] else r.path
  }

  lemma CutNodes(path: seq<string>, idx: nat)
    requires Distinct(path) && idx <= |path|
    ensures forall u <- path[..idx] :: u !in path[idx..]
    ensures forall u :: u in path <==> u in path[..idx] || u in path[idx..]
  {
    assert path == path[..idx] + path[idx..];
    assert forall k :: 0 <= k < idx ==> path[..idx][k] == path[k];
    assert forall k :: 0 <= k < |path| - idx ==> path[idx..][k] == path[idx + k];
  }

  lemma PathIsLeadInAndLoop(parent: ParentMap, r: LoopReport)
    requires Genuine(parent, r)
    ensures Distinct(LeadIn(r)) && ParentChain(parent, LeadIn(r))
    ensures forall u <- LeadIn(r) :: u in r.path && u !in LoopNodes(r)
    ensures forall u :: u in r.path <==> u in LeadIn(r) || u in LoopNodes(r)
    ensures LeadIn(r) != [] ==> var last := LeadIn(r)[|LeadIn(r)| - 1]; last in parent && parent[last] == r.next
  {
    CutChain(parent, r.path, Position(r.path, r.next));
    CutNodes(r.path, Position(r.path, r.next));
  }

  lemma LoopingWalk(parent: ParentMap, done: set<string>, r: LoopReport)
    requires Closed(parent, done) && Genuine(parent, r)
    requires forall u <- r.path :: u !in done
    ensures WalkResult(parent, done, r.path, [r])
  {
    LoopIsClosed(parent, done, r);
    PathIsLeadInAndLoop(parent, r);
    LoopNodesAreOnCycle(parent, r);
    LeadInIsNotOnCycle(parent, done + LoopNodes(r), LeadIn(r));
    assert done + LoopNodes(r) + (set u | u in LeadIn(r)) == done + set u | u in r.path;
  }

  /** Reports so far: genuine, inside `done`, pairwise disjoint, and covering every done node on a cycle. */
  ghost predicate ReportsCover(parent: ParentMap, done: set<string>, loops: seq<LoopReport>) {
    && (forall r <- loops :: Genuine(parent, r) && LoopNodes(r) <= done)
    && (forall i, j :: 0 <= i < j < |loops| ==> LoopNodes(loops[i]) !! LoopNodes(loops[j]))
    && (forall u <- done :: OnCycle(parent, u) ==> exists r <- loops :: u in LoopNodes(r))
  }

  lemma ExtendReports(parent: ParentMap, done: set<string>, loops: seq<LoopReport>, path: seq<string>, found: seq<LoopReport>)
    requires ReportsCover(parent, done, loops) && WalkResult(parent, done, path, found)
    ensures ReportsCover(parent, done + (set u | u in path), loops + found)
  {
    var all := loops + found;
    forall r | r in found ensures LoopNodes(r) <= set u | u in path {
    }
    forall i, j | 0 <= i < j < |all| ensures LoopNodes(all[i]) !! LoopNodes(all[j]) {
      if j >= |loops| {
        assert all[j] in found;
        assert all[i] in loops;
      }
    }
    forall u | u in path && OnCycle(parent, u) ensures exists r <- all :: u in LoopNodes(r) {
      assert found[0] in all;
    }
  }

  /** The walk stands before the unvisited `u`, having come up along `path` from `start`. */
  ghost predicate Climbing(parent: ParentMap, visits: map<string, Visit>, start: string, path: seq<string>, u: string) {
    && u !in visits && u !in path
    && Distinct(path) && ParentChain(parent, path)
    && (forall v <- path :: v !in visits)
    && (if path == [] then u == start
        else path[0] == start && path[|path| - 1] in parent && parent[path[|path| - 1]] == u)
  }

  ghost predicate Marked(visits: map<string, Visit>, path: seq<string>, after: map<string, Visit>) {
    && after.Keys == visits.Keys + (set v | v in path)
    && forall v <- after :: after[v] == if v in path then Walking else Done
  }

  lemma ClimbOne(parent: ParentMap, visits: map<string, Visit>, start: string, path: seq<string>, u: string,
                 after: map<string, Visit>)
    requires Climbing(parent, visits, start, path, u) && Marked(visits, path, after)
    ensures var longer := path + [u];
      && longer[0] == start && longer[|longer| - 1] == u
      && Distinct(longer) && ParentChain(parent, longer)
      && (forall v <- longer :: v !in visits)
      && Marked(visits, longer, after[u := Walking])
      && (set v | v in longer) == (set v | v in path) + {u}
  {
  }

  /** One walk from `start`: marks it and its unvisited ancestors, stopping at the end of the chain, at a
      finished item, or at an item of this very walk, which is reported. */
  method WalkFrom(parent: ParentMap, start: string, visits: map<string, Visit>, ghost ids: set<string>)
    returns (path: seq<string>, found: seq<LoopReport>, after: map<string, Visit>)
    requires start in ids && start !in visits
    requires forall u :: u in parent ==> parent[u] in ids
    requires forall u <- visits :: visits[u] == Done
    requires Closed(parent, visits.Keys)
    ensures start in path && WalkResult(parent, visits.Keys, path, found)
    ensures Marked(visits, path, after)
  {
    path, found, after := [], [], visits;
    var u := start;
    while true
      invariant u in ids && (forall v <- path :: v in ids)
      invariant Climbing(parent, visits, start, path, u) && Marked(visits, path, after)
      invariant found == []
      decreases ids - set v | v in path
    {
      ClimbOne(parent, visits, start, path, u, after);
      after := after[u := Walking];
      path := path + [u];
      if u !in parent || (parent[u] in after && after[parent[u]] == Done) {
        OpenWalk(parent, visits.Keys, path);
        break;
      }
      if parent[u] in after {
        found := [LoopReport(path, parent[u])];
        LoopingWalk(parent, visits.Keys, found[0]);
        break;
      }
      u := parent[u];
    }
    assert path[0] in path;
  }

  /** The whole walk: every item on a cycle lies in exactly one reported loop, and every report is real. */
  method FindLoops(ids: seq<string>, parent: ParentMap) returns (loops: seq<LoopReport>)
    requires forall u :: u in parent ==> u in ids && parent[u] in ids
    ensures forall r <- loops :: Genuine(parent, r)
    ensures forall u :: OnCycle(parent, u) ==> exists r <- loops :: u in LoopNodes(r)
    ensures forall i, j :: 0 <= i < j < |loops| ==> LoopNodes(loops[i]) !! LoopNodes(loops[j])
    ensures loops == [] <==> forall u :: !OnCycle(parent, u)
  {
    loops := [];
    var visits: map<string, Visit> := map[];
    for i := 0 to |ids|
      invariant forall u <- visits :: visits[u] == Done
      invariant Closed(parent, visits.Keys)
      invariant forall k :: 0 <= k < i ==> ids[k] in visits
      invariant ReportsCover(parent, visits.Keys, loops)
    {
      if ids[i] !in visits {
        var path, found, after := WalkFrom(parent, ids[i], visits, (set u | u in ids));
        ExtendReports(parent, visits.Keys, loops, path, found);
        loops := loops + found;
        visits := FinishPath(path, visits, after);
      }
    }
    forall u | OnCycle(parent, u) ensures exists r <- loops :: u in LoopNodes(r) {
      assert u in parent;
    }
    if loops != [] {
      LoopNodesAreOnCycle(parent, loops[0]);
    }
  }

  method FinishPath(path: seq<string>, ghost before: map<string, Visit>, walked: map<string, Visit>)
    returns (after: map<string, Visit>)
    requires walked.Keys == before.Keys + set u | u in path
    requires forall u <- walked :: u !in path ==> walked[u] == Done
    ensures after.Keys == walked.Keys && forall u <- after :: after[u] == Done
  {
    after := walked;
    for k := 0 to |path|
      invariant after.Keys == walked.Keys
      invariant forall u <- after :: after[u] == Done || u in path[k..]
    {
      after := after[path[k] := Done];
    }
  }
}
