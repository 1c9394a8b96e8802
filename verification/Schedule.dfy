/** What the order, hierarchy and milestone checks give together: milestones run in order are a
    topological order of the dependency graph. */
module Schedule {
  import opened Wrappers
  import opened Tree
  import opened SkeletonGate

  /** The order a map filled in milestone order ends up holding for `id`. */
  function MilestoneOrder(ms: seq<Milestone>, id: string): Option<int> {
    if ms == [] then None
    else if ms[|ms| - 1].id == id then Some(ms[|ms| - 1].order)
    else MilestoneOrder(ms[..|ms| - 1], id)
  }

  /** Milestone `j` is the last one with its id. */
  ghost predicate LastOfId(ms: seq<Milestone>, j: int) {
    0 <= j < |ms| && forall k :: j < k < |ms| ==> ms[k].id != ms[j].id
  }

  lemma {:induction false} MilestoneOrderIsLast(ms: seq<Milestone>, j: int)
    requires LastOfId(ms, j)
    ensures MilestoneOrder(ms, ms[j].id) == Some(ms[j].order)
  {
    if j < |ms| - 1 {
      assert ms[..|ms| - 1][j] == ms[j];
      MilestoneOrderIsLast(ms[..|ms| - 1], j);
    }
  }

  lemma {:induction false} OrderHasAMilestone(ms: seq<Milestone>, id: string)
    ensures MilestoneOrder(ms, id).Some? <==> HasMilestone(ms, id)
  {
    if ms != [] && ms[|ms| - 1].id != id {
      var front := ms[..|ms| - 1];
      OrderHasAMilestone(front, id);
      if HasMilestone(ms, id) {
        var j :| 0 <= j < |ms| && ms[j].id == id;
        assert front[j].id == id;
      }
    }
  }

  function OwnOrder(ms: seq<Milestone>, it: Item): Option<int> {
    if it.milestone.None? then None else MilestoneOrder(ms, it.milestone.value)
  }

  /** The milestone order the check holds for the item id `id`: that of the last item so called whose
      milestone resolves. */
  function ItemOrder(items: seq<Item>, ms: seq<Milestone>, id: string): Option<int> {
    if items == [] then None
    else
      var last := items[|items| - 1];
      if last.id == id && OwnOrder(ms, last).Some? then OwnOrder(ms, last)
      else ItemOrder(items[..|items| - 1], ms, id)
  }

  /** Item `i` depends on something in a strictly later milestone. */
  ghost predicate ForwardEdge(s: Skeleton, i: int, dep: string, c: Complaint)
    requires 0 <= i < |s.items|
  {
    var own := ItemOrder(s.items, s.milestones, s.items[i].id);
    var other := ItemOrder(s.items, s.milestones, dep);
    && dep in s.items[i].dependsOn && own.Some? && other.Some? && other.value > own.value
    && c == DependsForward(s.items[i].id, dep, other.value, own.value)
  }

  ghost predicate Shippable(s: Skeleton) {
    forall i, dep, c :: 0 <= i < |s.items| ==> !ForwardEdge(s, i, dep, c)
  }

  /** Ids name one item and one milestone each. */
  ghost predicate UniqueNames(s: Skeleton) {
    DistinctIds(s.items) && forall i, j :: 0 <= i < j < |s.milestones| ==> s.milestones[i].id != s.milestones[j].id
  }

  /** Item `i` belongs to milestone `m`. */
  predicate In(s: Skeleton, i: int, m: int) {
    0 <= i < |s.items| && 0 <= m < |s.milestones| && s.items[i].milestone == Some(s.milestones[m].id)
  }

  /** Item `i` of milestone `m` depends on item `j` of the strictly later milestone `n`. */
  ghost predicate PointsForward(s: Skeleton, i: int, m: int, j: int, n: int) {
    && In(s, i, m) && In(s, j, n)
    && s.items[j].id in s.items[i].dependsOn
    && s.milestones[n].order > s.milestones[m].order
  }

  /** No dependency points into a strictly later milestone; stated without any lookup by id. */
  ghost predicate NothingPointsForward(s: Skeleton) {
    forall i, m, j, n :: !PointsForward(s, i, m, j, n)
  }

  ghost predicate AboutForward(s: Skeleton, c: Complaint) {
    exists i, m, j, n :: PointsForward(s, i, m, j, n)
      && c == DependsForward(s.items[i].id, s.items[j].id, s.milestones[n].order, s.milestones[m].order)
  }

  /** Item `i` belongs to milestone `m` exactly when the lookups find that milestone's order for it. */
  lemma OrderOfMember(s: Skeleton, i: int, m: int)
    requires UniqueNames(s) && In(s, i, m)
    ensures ItemOrder(s.items, s.milestones, s.items[i].id) == Some(s.milestones[m].order)
  {
    ItemOrderIsOwn(s.items, s.milestones, i);
    MilestoneOrderIsLast(s.milestones, m);
  }

  lemma OrderedIsMember(s: Skeleton, id: string) returns (i: int, m: int)
    requires UniqueNames(s) && ItemOrder(s.items, s.milestones, id).Some?
    ensures In(s, i, m) && s.items[i].id == id
    ensures ItemOrder(s.items, s.milestones, id) == Some(s.milestones[m].order)
  {
    if !Declared(s.items, id) { Unlisted(s.items, s.milestones, id); }
    i := LastIndex(s.items, id);
    ItemOrderIsOwn(s.items, s.milestones, i);
    OrderHasAMilestone(s.milestones, s.items[i].milestone.value);
    m :| 0 <= m < |s.milestones| && s.milestones[m].id == s.items[i].milestone.value;
    OrderOfMember(s, i, m);
  }

  /** Where ids are unique, an edge the lookups complain about is a dependency on a strictly later milestone. */
  lemma ForwardEdgeIsForward(s: Skeleton, i: int, dep: string, c: Complaint)
    requires UniqueNames(s) && 0 <= i < |s.items| && ForwardEdge(s, i, dep, c)
    ensures AboutForward(s, c)
  {
    var i', m := OrderedIsMember(s, s.items[i].id);
    var j, n := OrderedIsMember(s, dep);
    assert i' == i;
    assert PointsForward(s, i, m, j, n);
  }

  lemma ForwardIsForwardEdge(s: Skeleton, i: int, m: int, j: int, n: int)
    requires UniqueNames(s) && PointsForward(s, i, m, j, n)
    ensures ForwardEdge(s, i, s.items[j].id,
              DependsForward(s.items[i].id, s.items[j].id, s.milestones[n].order, s.milestones[m].order))
  {
    OrderOfMember(s, i, m);
    OrderOfMember(s, j, n);
  }

  /** The check through its last-wins maps is the plain rule on items and milestones. */
  lemma ForwardEdges(s: Skeleton)
    requires UniqueNames(s)
    ensures forall c :: AboutForward(s, c) <==> exists i, dep :: 0 <= i < |s.items| && ForwardEdge(s, i, dep, c)
    ensures Shippable(s) <==> NothingPointsForward(s)
  {
    forall i, dep, c | 0 <= i < |s.items| && ForwardEdge(s, i, dep, c) ensures AboutForward(s, c) {
      ForwardEdgeIsForward(s, i, dep, c);
    }
    forall i, m, j, n | PointsForward(s, i, m, j, n)
      ensures ForwardEdge(s, i, s.items[j].id,
                DependsForward(s.items[i].id, s.items[j].id, s.milestones[n].order, s.milestones[m].order))
    {
      ForwardIsForwardEdge(s, i, m, j, n);
    }
  }

  method MapMilestones(ms: seq<Milestone>) returns (order: map<string, int>)
    ensures forall id :: (if id in order then Some(order[id]) else None) == MilestoneOrder(ms, id)
    ensures forall id :: id in order <==> HasMilestone(ms, id)
    ensures forall j :: LastOfId(ms, j) ==> ms[j].id in order && order[ms[j].id] == ms[j].order
  {
    order := map[];
    for i := 0 to |ms|
      invariant forall id :: (if id in order then Some(order[id]) else None) == MilestoneOrder(ms[..i], id)
    {
      assert ms[..i + 1][..i] == ms[..i];
      order := order[ms[i].id := ms[i].order];
    }
    assert ms[..|ms|] == ms;
    forall id ensures id in order <==> HasMilestone(ms, id) {
      OrderHasAMilestone(ms, id);
    }
    forall j | LastOfId(ms, j) ensures ms[j].id in order && order[ms[j].id] == ms[j].order {
      MilestoneOrderIsLast(ms, j);
    }
  }

  method MapItemOrders(s: Skeleton) returns (orders: map<string, int>)
    ensures forall id :: (if id in orders then Some(orders[id]) else None) == ItemOrder(s.items, s.milestones, id)
  {
    var order := MapMilestones(s.milestones);
    orders := map[];
    for i := 0 to |s.items|
      invariant forall id ::
                  (if id in orders then Some(orders[id]) else None) == ItemOrder(s.items[..i], s.milestones, id)
    {
      assert s.items[..i + 1][..i] == s.items[..i];
      var it := s.items[i];
      if it.milestone.Some? && it.milestone.value in order {
        orders := orders[it.id := order[it.milestone.value]];
      }
    }
    assert s.items[..|s.items|] == s.items;
  }

  /** `checkMilestoneShippable`: complains exactly about the edges that point into a later milestone. */
  method CheckMilestoneShippable(s: Skeleton) returns (complaints: seq<Complaint>)
    ensures complaints == [] <==> Shippable(s)
    ensures forall c :: c in complaints <==> exists i, dep :: 0 <= i < |s.items| && ForwardEdge(s, i, dep, c)
    ensures UniqueNames(s) ==> forall c :: c in complaints <==> AboutForward(s, c)
    ensures UniqueNames(s) ==> (complaints == [] <==> NothingPointsForward(s))
  {
    complaints := [];
    if UniqueNames(s) { ForwardEdges(s); }
    if |s.milestones| == 0 {
      NoMilestonesNoOrders(s);
      return;
    }
    var orders := MapItemOrders(s);
    for i := 0 to |s.items|
      invariant forall c :: c in complaints <==> exists k, dep :: 0 <= k < i && ForwardEdge(s, k, dep, c)
    {
      var it := s.items[i];
      assert (if it.id in orders then Some(orders[it.id]) else None) == ItemOrder(s.items, s.milestones, it.id);
      if it.id in orders {
        for j := 0 to |it.dependsOn|
          invariant forall c :: c in complaints <==>
                      || (exists k, dep :: 0 <= k < i && ForwardEdge(s, k, dep, c))
                      || (exists m :: 0 <= m < j && ForwardEdge(s, i, it.dependsOn[m], c))
        {
          var dep := it.dependsOn[j];
          assert (if dep in orders then Some(orders[dep]) else None) == ItemOrder(s.items, s.milestones, dep);
          if dep in orders && orders[dep] > orders[it.id] {
            complaints := complaints + [DependsForward(it.id, dep, orders[dep], orders[it.id])];
          }
        }
      }
    }
    if complaints == [] {
      forall i, dep, c | 0 <= i < |s.items| ensures !ForwardEdge(s, i, dep, c) {
        assert c !in complaints;
      }
    } else {
      assert complaints[0] in complaints;
    }
  }

  lemma NoMilestonesNoOrders(s: Skeleton)
    requires s.milestones == []
    ensures forall id :: ItemOrder(s.items, s.milestones, id).None?
  {
    forall id ensures ItemOrder(s.items, s.milestones, id).None? {
      NoOrder(s.items, id);
    }
  }

  lemma {:induction false} NoOrder(items: seq<Item>, id: string)
    ensures ItemOrder(items, [], id).None?
  {
    if items != [] { NoOrder(items[..|items| - 1], id); }
  }

  // ---------------------------------------------------------------- the schedule

  /** The milestone order of item `i`; 0 for every item of a skeleton without milestones. */
  function Rank(s: Skeleton, i: nat): int
    requires i < |s.items|
  {
    var own := OwnOrder(s.milestones, s.items[i]);
    if own.Some? then own.value else 0
  }

  /** The items of milestone `order` among the first `n`, in array order. */
  function Bucket(s: Skeleton, order: int, n: nat): (r: seq<nat>)
    requires n <= |s.items|
    ensures forall k :: 0 <= k < |r| ==> r[k] < n
  {
    if n == 0 then []
    else Bucket(s, order, n - 1) + if Rank(s, n - 1) == order then [n - 1] else []
  }

  /** Milestones 0..order one after the other, array order within each. */
  function RunOrder(s: Skeleton, order: nat): (r: seq<nat>)
    ensures forall k :: 0 <= k < |r| ==> r[k] < |s.items|
  {
    (if order == 0 then [] else RunOrder(s, order - 1)) + Bucket(s, order, |s.items|)
  }

  ghost predicate Before(s: Skeleton, i: nat, j: nat)
    requires i < |s.items| && j < |s.items|
  {
    Rank(s, i) < Rank(s, j) || (Rank(s, i) == Rank(s, j) && i < j)
  }

  ghost predicate SortedRun(s: Skeleton, q: seq<nat>)
    requires forall k :: 0 <= k < |q| ==> q[k] < |s.items|
  {
    forall a, b :: 0 <= a < b < |q| ==> Before(s, q[a], q[b])
  }

  lemma {:induction false} BucketIsSorted(s: Skeleton, order: int, n: nat)
    requires n <= |s.items|
    ensures SortedRun(s, Bucket(s, order, n))
    ensures forall i :: i in Bucket(s, order, n) <==> 0 <= i < n && Rank(s, i) == order
  {
    if n > 0 { BucketIsSorted(s, order, n - 1); }
  }

  lemma {:induction false} RunOrderIsSorted(s: Skeleton, order: nat)
    requires forall i :: 0 <= i < |s.items| ==> Rank(s, i) >= 0
    ensures SortedRun(s, RunOrder(s, order))
    ensures forall i :: i in RunOrder(s, order) <==> 0 <= i < |s.items| && Rank(s, i) <= order
  {
    BucketIsSorted(s, order, |s.items|);
    if order > 0 {
      RunOrderIsSorted(s, order - 1);
      var early, late := RunOrder(s, order - 1), Bucket(s, order, |s.items|);
      forall a, b | 0 <= a < |early| && 0 <= b < |late| ensures Before(s, early[a], late[b]) {
        assert early[a] in early && late[b] in late;
      }
    }
  }

  /** The last item of an id whose milestone resolves decides the order held for that id. */
  lemma {:induction false} ItemOrderIsLast(items: seq<Item>, ms: seq<Milestone>, i: nat)
    requires i < |items| && OwnOrder(ms, items[i]).Some?
    requires forall k :: i < k < |items| && items[k].id == items[i].id ==> OwnOrder(ms, items[k]).None?
    ensures ItemOrder(items, ms, items[i].id) == OwnOrder(ms, items[i])
  {
    if i < |items| - 1 {
      assert items[..|items| - 1][i] == items[i];
      ItemOrderIsLast(items[..|items| - 1], ms, i);
    }
  }

  /** With distinct ids, the check's last-wins map holds each item's own milestone order. */
  lemma {:induction false} ItemOrderIsOwn(items: seq<Item>, ms: seq<Milestone>, i: nat)
    requires DistinctIds(items) && i < |items|
    ensures ItemOrder(items, ms, items[i].id) == OwnOrder(ms, items[i])
  {
    var front := items[..|items| - 1];
    if i < |items| - 1 {
      assert front[i] == items[i];
      assert items[|items| - 1].id != items[i].id;
      ItemOrderIsOwn(front, ms, i);
    } else if OwnOrder(ms, items[i]).None? {
      Unlisted(front, ms, items[i].id);
    }
  }

  lemma {:induction false} Unlisted(items: seq<Item>, ms: seq<Milestone>, id: string)
    requires !Declared(items, id)
    ensures ItemOrder(items, ms, id).None?
  {
    if items != [] {
      assert items[|items| - 1].id != id;
      var front := items[..|items| - 1];
      assert forall k :: 0 <= k < |front| ==> front[k] == items[k];
      Unlisted(front, ms, id);
    }
  }

  /** Ranks of a legal skeleton: 0 without milestones, otherwise 1..N. */
  lemma RankInRange(s: Skeleton, i: nat)
    requires HierarchyLegal(s) && i < |s.items|
    ensures 0 <= Rank(s, i) <= |s.milestones|
    ensures s.milestones != [] ==> OwnOrder(s.milestones, s.items[i]) == Some(Rank(s, i))
  {
    assert ItemLegal(s, s.items[i]);
    if s.milestones != [] {
      var m :| 0 <= m < |s.milestones| && s.milestones[m].id == s.items[i].milestone.value;
      MilestoneOrderIsLast(s.milestones, m);
    }
  }

  /** A prerequisite runs strictly before its dependant. */
  lemma PrerequisiteRunsBefore(s: Skeleton, i: nat, dep: string)
    requires HierarchyLegal(s) && OrderConsistent(s.items) && Shippable(s)
    requires i < |s.items| && dep in s.items[i].dependsOn
    ensures Declared(s.items, dep) && Before(s, LastIndex(s.items, dep), i)
  {
    assert ItemLegal(s, s.items[i]);
    var j := LastIndex(s.items, dep);
    RankInRange(s, i);
    RankInRange(s, j);
    if s.milestones != [] {
      ItemOrderIsOwn(s.items, s.milestones, i);
      ItemOrderIsOwn(s.items, s.milestones, j);
      var c := DependsForward(s.items[i].id, dep, Rank(s, j), Rank(s, i));
      assert !ForwardEdge(s, i, dep, c);
    }
  }

  /** A skeleton that passes the three checks runs topologically: milestones in order, array order within
      each, lists every item once, and each dependency of an item at an earlier position. */
  lemma RunOrderIsTopological(s: Skeleton)
    requires HierarchyLegal(s) && OrderConsistent(s.items) && Shippable(s)
    ensures var q := RunOrder(s, |s.milestones|);
      && (forall i :: 0 <= i < |s.items| ==> i in q)
      && (forall a, b :: 0 <= a < b < |q| ==> q[a] != q[b])
      && (forall k, dep :: 0 <= k < |q| && dep in s.items[q[k]].dependsOn ==>
            Declared(s.items, dep) && LastIndex(s.items, dep) in q[..k])
  {
    forall i | 0 <= i < |s.items| ensures 0 <= Rank(s, i) <= |s.milestones| {
      RankInRange(s, i);
    }
    var q := RunOrder(s, |s.milestones|);
    RunOrderIsSorted(s, |s.milestones|);
    SortedRunHasNoRepeats(s, q);
    forall k, dep | 0 <= k < |q| && dep in s.items[q[k]].dependsOn
      ensures Declared(s.items, dep) && LastIndex(s.items, dep) in q[..k]
    {
      PrerequisiteRunsBefore(s, q[k], dep);
      EarlierInSortedRun(s, q, LastIndex(s.items, dep), k);
    }
  }

  lemma SortedRunHasNoRepeats(s: Skeleton, q: seq<nat>)
    requires forall k :: 0 <= k < |q| ==> q[k] < |s.items|
    requires SortedRun(s, q)
    ensures forall a, b :: 0 <= a < b < |q| ==> q[a] != q[b]
  {
    forall a, b | 0 <= a < b < |q| ensures q[a] != q[b] {
      assert Before(s, q[a], q[b]);
    }
  }

  lemma EarlierInSortedRun(s: Skeleton, q: seq<nat>, j: nat, k: nat)
    requires forall k :: 0 <= k < |q| ==> q[k] < |s.items|
    requires SortedRun(s, q)
    requires j in q && k < |q| && Before(s, j, q[k])
    ensures j in q[..k]
  {
    var a :| 0 <= a < |q| && q[a] == j;
    assert forall b :: k < b < |q| ==> Before(s, q[k], q[b]);
    assert q[..k][a] == j;
  }

  /** Stopping after any milestone leaves nothing behind that a finished item needs. */
  lemma MilestonePrefixIsClosed(s: Skeleton, n: nat)
    requires HierarchyLegal(s) && OrderConsistent(s.items) && Shippable(s)
    ensures forall i, dep :: i in RunOrder(s, n) && dep in s.items[i].dependsOn ==>
              Declared(s.items, dep) && LastIndex(s.items, dep) in RunOrder(s, n)
  {
    forall i | 0 <= i < |s.items| ensures 0 <= Rank(s, i) {
      RankInRange(s, i);
    }
    RunOrderIsSorted(s, n);
    forall i, dep | i in RunOrder(s, n) && dep in s.items[i].dependsOn
      ensures Declared(s.items, dep) && LastIndex(s.items, dep) in RunOrder(s, n)
    {
      PrerequisiteRunsBefore(s, i, dep);
    }
  }
}
