/** The depth-first cycle finder of the skeleton gate. */
module CycleSearch {
  import opened Wrappers
  import opened Tree

  datatype Color = Gray | Black
  type Graph = map<string, seq<string>>

  function Succ(adj: Graph, u: string): seq<string> {
    if u in adj then adj[u] else []
  }

  ghost predicate Chain(adj: Graph, p: seq<string>) {
    forall k :: 0 <= k < |p| - 1 ==> p[k + 1] in Succ(adj, p[k])
  }

  /** A closed walk that repeats no node except its end point. */
  ghost predicate SimpleCycle(adj: Graph, p: seq<string>) {
    && |p| >= 2
    && p[0] == p[|p| - 1]
    && Chain(adj, p)
    && forall i, j :: 0 <= i < j < |p| - 1 ==> p[i] != p[j]
  }

  function FirstIndex<T(==)>(xs: seq<T>, x: T): (r: int)
    ensures -1 <= r < |xs|
    ensures r == -1 <==> x !in xs
    ensures r >= 0 ==> xs[r] == x
    ensures forall j :: 0 <= j < |xs| && xs[j] == x ==> r <= j
  {
    if xs == [] then -1
    else if xs[0] == x then 0
    else
      var k := FirstIndex(xs[1..], x);
      assert xs == [xs[0]] + xs[1..];
      if k < 0 then -1 else k + 1
  }

  /** Every successor of a finished node finished before it. */
  ghost predicate FinishOrder(adj: Graph, finished: seq<string>) {
    forall k, v :: 0 <= k < |finished| && v in Succ(adj, finished[k]) ==> v in finished[..k]
  }

  /** Following edges from a finished node strictly lowers its finishing position, so it never comes back. */
  lemma {:induction false} FinishedRankFalls(adj: Graph, finished: seq<string>, p: seq<string>)
    requires FinishOrder(adj, finished)
    requires |p| >= 2 && Chain(adj, p) && p[0] in finished
    ensures p[|p| - 1] in finished
    ensures FirstIndex(finished, p[|p| - 1]) < FirstIndex(finished, p[0])
  {
    var k := FirstIndex(finished, p[0]);
    assert p[0 + 1] in Succ(adj, finished[k]);
    assert p[1] in finished[..k];
    var j :| 0 <= j < k && finished[j] == p[1];
    if |p| > 2 {
      var q := p[1..];
      forall i | 0 <= i < |q| - 1 ensures q[i + 1] in Succ(adj, q[i]) {
        assert p[i + 1 + 1] in Succ(adj, p[i + 1]);
      }
      FinishedRankFalls(adj, finished, q);
    }
  }

  class CycleFinder {
    ghost const ids: set<string>
    const adj: Graph
    var color: map<string, Color>
    var stack: seq<string>
    var cycle: seq<string>
    ghost var finished: seq<string>

    constructor (adj: Graph, ghost ids: set<string>)
      requires forall u, v :: v in Succ(adj, u) ==> v in ids
      ensures this.adj == adj && this.ids == ids
      ensures Valid() && stack == [] && cycle == [] && finished == []
    {
      this.adj, this.ids := adj, ids;
      color, stack, cycle, finished := map[], [], [], [];
    }

    /** Grey nodes are exactly the stack, which is a simple path; black nodes are exactly the
        finished ones, and no edge leaves a finished node except to an earlier finished one. */
    ghost predicate Valid()
      reads this
    {
      && (forall u, v :: v in Succ(adj, u) ==> v in ids)
      && color.Keys <= ids
      && (forall v :: v in stack <==> v in color && color[v] == Gray)
      && (forall v :: v in finished <==> v in color && color[v] == Black)
      && (forall i, j :: 0 <= i < j < |stack| ==> stack[i] != stack[j])
      && Chain(adj, stack)
      && FinishOrder(adj, finished)
    }

    method Dfs(u: string) returns (found: bool)
      requires Valid() && cycle == []
      requires u in ids && u !in color
      requires stack == [] || u in Succ(adj, stack[|stack| - 1])
      modifies this
      ensures found ==> SimpleCycle(adj, cycle)
      ensures !found ==> Valid() && cycle == [] && stack == old(stack)
      ensures !found ==> old(finished) <= finished && u in finished
      ensures !found ==> old(color.Keys) <= color.Keys
      decreases ids - color.Keys
    {
      Enter(u);
      var next := Succ(adj, u);
      var i := 0;
      while i < |next|
        invariant 0 <= i <= |next|
        invariant Valid() && cycle == []
        invariant stack == old(stack) + [u]
        invariant old(finished) <= finished
        invariant old(color.Keys) + {u} <= color.Keys
        invariant forall k :: 0 <= k < i ==> next[k] in finished
      {
        var v := next[i];
        if v in color && color[v] == Gray {
          Close(v);
          return true;
        } else if v !in color {
          found := Dfs(v);
          if found {
            return true;
          }
        }
        i := i + 1;
      }
      Leave(u);
      return false;
    }

    /** The closure's first two statements: grey the node and push it. */
    method Enter(u: string)
      requires Valid()
      requires u in ids && u !in color
      requires stack == [] || u in Succ(adj, stack[|stack| - 1])
      modifies this`color, this`stack
      ensures Valid() && stack == old(stack) + [u] && color == old(color)[u := Gray]
    {
      color := color[u := Gray];
      stack := stack + [u];
    }

    /** The closure's last two statements: pop the node and blacken it. */
    method Leave(u: string)
      requires Valid() && stack != [] && stack[|stack| - 1] == u
      requires forall v <- Succ(adj, u) :: v in finished
      modifies this`color, this`stack, this`finished
      ensures Valid() && stack == old(stack)[..|old(stack)| - 1]
      ensures color == old(color)[u := Black] && finished == old(finished) + [u]
    {
      FinishLast(finished, u);
      stack := stack[..|stack| - 1];
      color := color[u := Black];
      finished := finished + [u];
    }

    /** The back-edge case: the cycle is the stack from `v` on, followed by `v`. */
    method Close(v: string)
      requires Valid() && v in stack && v in Succ(adj, stack[|stack| - 1])
      modifies this`cycle
      ensures SimpleCycle(adj, cycle)
    {
      var idx := FirstIndex(stack, v);
      CloseCycle(stack, idx);
      cycle := stack[idx..] + [v];
    }

    lemma CloseCycle(path: seq<string>, idx: nat)
      requires idx < |path| && path[idx] in Succ(adj, path[|path| - 1])
      requires Chain(adj, path)
      requires forall i, j :: 0 <= i < j < |path| ==> path[i] != path[j]
      ensures SimpleCycle(adj, path[idx..] + [path[idx]])
    {
      var c := path[idx..] + [path[idx]];
      forall k | 0 <= k < |c| - 1 ensures c[k + 1] in Succ(adj, c[k]) {
        assert c[k] == path[idx + k];
        if k < |c| - 2 { assert path[idx + k + 1] in Succ(adj, path[idx + k]); }
      }
    }

    lemma FinishLast(done: seq<string>, u: string)
      requires FinishOrder(adj, done)
      requires forall v <- Succ(adj, u) :: v in done
      ensures FinishOrder(adj, done + [u])
    {
      var all := done + [u];
      forall k, v | 0 <= k < |all| && v in Succ(adj, all[k]) ensures v in all[..k] {
        assert all[..k] == if k < |done| then done[..k] else done;
      }
    }
  }

  /** The edges contributed by the first `n` items and the first `m` dependencies of item `n`. */
  ghost predicate EdgeUpTo(items: seq<Item>, n: int, m: int, u: string, v: string)
    requires 0 <= n <= |items| && (n == |items| ==> m == 0)
    requires n < |items| ==> 0 <= m <= |items[n].dependsOn|
  {
    && Declared(items, v)
    && (|| (exists i :: 0 <= i < n && items[i].id == u && v in items[i].dependsOn)
        || (n < |items| && items[n].id == u && v in items[n].dependsOn[..m]))
  }

  method BuildGraph(items: seq<Item>) returns (idSet: set<string>, adj: Graph)
    ensures forall id :: id in idSet <==> Declared(items, id)
    ensures forall u, v :: v in Succ(adj, u) <==> DependsEdge(items, u, v)
  {
    idSet := {};
    for i := 0 to |items|
      invariant forall id :: id in idSet <==> exists k :: 0 <= k < i && items[k].id == id
    {
      idSet := idSet + {items[i].id};
    }
    adj := map[];
    for i := 0 to |items|
      invariant forall u, v :: v in Succ(adj, u) <==> EdgeUpTo(items, i, 0, u, v)
    {
      var deps := items[i].dependsOn;
      for k := 0 to |deps|
        invariant forall u, v :: v in Succ(adj, u) <==> EdgeUpTo(items, i, k, u, v)
      {
        ghost var was := adj;
        if deps[k] in idSet {
          adj := adj[items[i].id := Succ(adj, items[i].id) + [deps[k]]];
        }
        assert deps[..k + 1] == deps[..k] + [deps[k]];
        forall u, v ensures v in Succ(adj, u) <==> EdgeUpTo(items, i, k + 1, u, v) {
          assert v in Succ(was, u) <==> EdgeUpTo(items, i, k, u, v);
          assert v in Succ(adj, u) <==>
                 v in Succ(was, u) || (u == items[i].id && v == deps[k] && Declared(items, v));
        }
      }
      assert deps[..|deps|] == deps;
    }
  }

  /** `checkAcyclic`: passes exactly when the dependency graph over declared ids has no cycle; a failure
      carries a genuine cycle that visits no id twice before closing. */
  method CheckAcyclic(s: Skeleton) returns (pass: bool, path: seq<string>)
    ensures pass <==> Acyclic(s.items)
    ensures !pass ==> DependsCycle(s.items, path)
    ensures !pass ==> forall i, j :: 0 <= i < j < |path| - 1 ==> path[i] != path[j]
    ensures pass ==> path == []
  {
    var ids, adj := BuildGraph(s.items);
    var search := new CycleFinder(adj, ids);
    for i := 0 to |s.items|
      invariant search.Valid() && search.stack == [] && search.cycle == []
      invariant search.adj == adj
      invariant forall k :: 0 <= k < i ==> s.items[k].id in search.finished
    {
      if s.items[i].id !in search.color {
        var found := search.Dfs(s.items[i].id);
        if found {
          CycleIsDepends(s.items, adj, search.cycle);
          return false, search.cycle;
        }
      }
    }
    AllFinishedIsAcyclic(s.items, adj, search.finished);
    return true, [];
  }

  lemma CycleIsDepends(items: seq<Item>, adj: Graph, p: seq<string>)
    requires forall u, v :: v in Succ(adj, u) <==> DependsEdge(items, u, v)
    requires SimpleCycle(adj, p)
    ensures DependsCycle(items, p)
  {
    forall k | 0 <= k < |p| - 1 ensures DependsEdge(items, p[k], p[k + 1]) {
      assert p[k + 1] in Succ(adj, p[k]);
    }
  }

  lemma AllFinishedIsAcyclic(items: seq<Item>, adj: Graph, finished: seq<string>)
    requires forall u, v :: v in Succ(adj, u) <==> DependsEdge(items, u, v)
    requires FinishOrder(adj, finished)
    requires forall k :: 0 <= k < |items| ==> items[k].id in finished
    ensures Acyclic(items)
  {
    forall p ensures !DependsCycle(items, p) {
      if DependsCycle(items, p) {
        assert DependsEdge(items, p[0], p[0 + 1]);
        FinishedRankFalls(adj, finished, p);
        assert false;
      }
    }
  }
}
