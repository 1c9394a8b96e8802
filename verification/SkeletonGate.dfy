/** The hierarchy, order and milestone checks of the skeleton gate. */
module SkeletonGate {
  import opened Wrappers
  import opened Tree

  datatype Complaint =
    | DuplicateId(id: string)
    | DuplicateMilestone(id: string)
    | UnresolvedDependency(id: string, dep: string)
    | BadParent(id: string, fault: ParentFault)
    | BadItemMilestone(id: string, misfit: MilestoneFault)
    | OrderOutOfRange(id: string, order: int)
    | DuplicateOrder(id: string, order: int)
    | OrderGap(missing: int)
    | DependsOnLater(id: string, dep: string, depIndex: int, index: int)
    | DependsForward(id: string, dep: string, depOrder: int, order: int)

  datatype MilestoneFault = NoMilestonesDeclared | NoMilestone | UnknownMilestone
  datatype ParentFault = NoParent | Dangling | ParentIsEpic | ParentIsSubTask | ParentNotL0 | L0UnderItem

  // ---------------------------------------------------------------- order_consistent

  /** Every dependency's map entry lies strictly earlier in the items array. */
  ghost predicate OrderConsistent(items: seq<Item>) {
    forall i, dep :: 0 <= i < |items| && dep in items[i].dependsOn ==> LastIndex(items, dep) < i
  }

  /** Item `i` lists `dep`, which sits at or after `i`; `c` is the complaint that says so. */
  ghost predicate LateDependency(items: seq<Item>, i: int, dep: string, c: Complaint)
    requires 0 <= i < |items|
  {
    dep in items[i].dependsOn && LastIndex(items, dep) >= i
    && c == DependsOnLater(items[i].id, dep, LastIndex(items, dep), i)
  }

  method IndexItems(items: seq<Item>) returns (index: map<string, int>)
    ensures forall id :: id in index <==> Declared(items, id)
    ensures forall id :: id in index ==> index[id] == LastIndex(items, id)
  {
    index := map[];
    for i := 0 to |items|
      invariant forall id :: id in index <==> exists k :: 0 <= k < i && items[k].id == id
      invariant forall id :: id in index ==>
                  && 0 <= index[id] < i
                  && items[index[id]].id == id
                  && forall k :: index[id] < k < i ==> items[k].id != id
    {
      index := index[items[i].id := i];
    }
  }

  /** The complaints about one item's dependencies. */
  method LateDependencies(items: seq<Item>, i: nat, index: map<string, int>) returns (complaints: seq<Complaint>)
    requires i < |items|
    requires forall id :: id in index <==> Declared(items, id)
    requires forall id :: id in index ==> index[id] == LastIndex(items, id)
    ensures forall c :: c in complaints <==> exists dep :: LateDependency(items, i, dep, c)
  {
    complaints := [];
    var deps := items[i].dependsOn;
    for j := 0 to |deps|
      invariant forall c :: c in complaints <==> exists m :: 0 <= m < j && LateDependency(items, i, deps[m], c)
    {
      if deps[j] in index && index[deps[j]] >= i {
        complaints := complaints + [DependsOnLater(items[i].id, deps[j], index[deps[j]], i)];
      }
    }
    forall c | exists dep :: LateDependency(items, i, dep, c) ensures c in complaints {
      var dep :| LateDependency(items, i, dep, c);
      var m :| 0 <= m < |deps| && deps[m] == dep;
      assert LateDependency(items, i, deps[m], c);
    }
  }

  method CheckOrderConsistent(items: seq<Item>) returns (complaints: seq<Complaint>)
    ensures complaints == [] <==> OrderConsistent(items)
    ensures forall c :: c in complaints <==>
              exists i, dep :: 0 <= i < |items| && LateDependency(items, i, dep, c)
  {
    var index := IndexItems(items);
    complaints := [];
    for i := 0 to |items|
      invariant forall c :: c in complaints <==>
                  exists k, dep :: 0 <= k < i && LateDependency(items, k, dep, c)
    {
      var more := LateDependencies(items, i, index);
      complaints := complaints + more;
    }
    NoneLateIsConsistent(items, complaints);
  }

  lemma NoneLateIsConsistent(items: seq<Item>, complaints: seq<Complaint>)
    requires forall c :: c in complaints <==>
               exists i, dep :: 0 <= i < |items| && LateDependency(items, i, dep, c)
    ensures complaints == [] <==> OrderConsistent(items)
  {
    if !OrderConsistent(items) {
      var i, dep :| 0 <= i < |items| && dep in items[i].dependsOn && LastIndex(items, dep) >= i;
      var c := DependsOnLater(items[i].id, dep, LastIndex(items, dep), i);
      assert LateDependency(items, i, dep, c);
      assert c in complaints;
    }
    if complaints != [] {
      var c := complaints[0];
      assert c in complaints;
      var i, dep :| 0 <= i < |items| && LateDependency(items, i, dep, c);
      assert LastIndex(items, dep) >= i;
    }
  }

  /** Even with duplicate ids, every edge strictly lowers the map position, so no walk closes. */
  lemma {:induction false} OrderLowersPosition(items: seq<Item>, p: seq<string>)
    requires OrderConsistent(items)
    requires |p| >= 2
    requires forall k :: 0 <= k < |p| - 1 ==> DependsEdge(items, p[k], p[k + 1])
    ensures LastIndex(items, p[|p| - 1]) < LastIndex(items, p[0])
  {
    assert DependsEdge(items, p[0], p[0 + 1]);
    if |p| > 2 {
      var q := p[1..];
      forall k | 0 <= k < |q| - 1 ensures DependsEdge(items, q[k], q[k + 1]) {
        assert DependsEdge(items, p[k + 1], p[k + 1 + 1]);
      }
      OrderLowersPosition(items, q);
    }
  }

  lemma OrderConsistentImpliesAcyclic(items: seq<Item>)
    requires OrderConsistent(items)
    ensures Acyclic(items)
  {
    forall p ensures !DependsCycle(items, p) {
      if DependsCycle(items, p) {
        OrderLowersPosition(items, p);
        assert false;
      }
    }
  }

  // ---------------------------------------------------------------- milestone orders

  /** Orders 1..N, each used exactly once. */
  ghost predicate OrdersArePermutation(ms: seq<Milestone>) {
    && (forall i :: 0 <= i < |ms| ==> 1 <= ms[i].order <= |ms|)
    && (forall i, j :: 0 <= i < j < |ms| ==> ms[i].order != ms[j].order)
    && (forall want :: 1 <= want <= |ms| ==> want in OrderSet(ms))
  }

  function OrderSet(ms: seq<Milestone>): set<int> {
    set i | 0 <= i < |ms| :: ms[i].order
  }

  /** The numbers 1..n. */
  function UpTo(n: nat): (r: set<int>)
    ensures |r| == n && forall k :: k in r <==> 1 <= k <= n
  {
    if n == 0 then {} else UpTo(n - 1) + {n}
  }

  lemma OrderSetSnoc(front: seq<Milestone>, last: Milestone)
    ensures OrderSet(front + [last]) == OrderSet(front) + {last.order}
  {
    var ms := front + [last];
    forall o | o in OrderSet(front) ensures o in OrderSet(ms) {
      var i :| 0 <= i < |front| && front[i].order == o;
      assert ms[i].order == o;
    }
    assert ms[|front|].order == last.order;
    forall o | o in OrderSet(ms) ensures o in OrderSet(front) + {last.order} {
      var i :| 0 <= i < |ms| && ms[i].order == o;
      assert i < |front| ==> front[i].order == o;
    }
  }

  lemma {:induction false} DistinctOrdersCount(ms: seq<Milestone>)
    requires forall i, j :: 0 <= i < j < |ms| ==> ms[i].order != ms[j].order
    ensures |OrderSet(ms)| == |ms|
  {
    if ms != [] {
      var front, last := ms[..|ms| - 1], ms[|ms| - 1];
      DistinctOrdersCount(front);
      assert ms == front + [last];
      OrderSetSnoc(front, last);
      assert last.order !in OrderSet(front);
    }
  }

  lemma SubsetOfSameSize<T>(a: set<T>, b: set<T>)
    requires a <= b && |a| == |b|
    ensures a == b
  {
    if x :| x in b && x !in a {
      assert a <= b - {x};
      SubsetSize(a, b - {x});
      assert false;
    }
  }

  lemma {:induction false} SubsetSize<T>(a: set<T>, b: set<T>)
    requires a <= b
    ensures |a| <= |b|
  {
    if a != {} {
      var x :| x in a;
      SubsetSize(a - {x}, b - {x});
    }
  }

  /** Pigeonhole: N distinct orders in 1..N leave no order unused. */
  lemma NoGap(ms: seq<Milestone>)
    requires forall i :: 0 <= i < |ms| ==> 1 <= ms[i].order <= |ms|
    requires forall i, j :: 0 <= i < j < |ms| ==> ms[i].order != ms[j].order
    ensures OrdersArePermutation(ms)
  {
    DistinctOrdersCount(ms);
    SubsetOfSameSize(OrderSet(ms), UpTo(|ms|));
    assert forall want :: 1 <= want <= |ms| ==> want in UpTo(|ms|);
  }

  ghost predicate OrderFault(ms: seq<Milestone>, i: int, c: Complaint)
    requires 0 <= i < |ms|
  {
    var m := ms[i];
    if m.order < 1 || m.order > |ms| then c == OrderOutOfRange(m.id, m.order)
    else (exists j :: 0 <= j < i && ms[j].order == m.order) && c == DuplicateOrder(m.id, m.order)
  }

  /** One complaint per milestone whose order is out of range or already used. */
  method OrderFaults(ms: seq<Milestone>) returns (complaints: seq<Complaint>, seen: set<int>)
    ensures forall c :: c in complaints <==> exists i :: 0 <= i < |ms| && OrderFault(ms, i, c)
    ensures forall o :: o in seen <==> 1 <= o <= |ms| && exists k :: 0 <= k < |ms| && ms[k].order == o
  {
    complaints, seen := [], {};
    for i := 0 to |ms|
      invariant forall o :: o in seen <==> 1 <= o <= |ms| && exists k :: 0 <= k < i && ms[k].order == o
      invariant forall c :: c in complaints <==> exists k :: 0 <= k < i && OrderFault(ms, k, c)
    {
      var o := ms[i].order;
      if o < 1 || o > |ms| {
        complaints := complaints + [OrderOutOfRange(ms[i].id, o)];
        assert OrderFault(ms, i, OrderOutOfRange(ms[i].id, o));
      } else if o in seen {
        complaints := complaints + [DuplicateOrder(ms[i].id, o)];
        assert OrderFault(ms, i, DuplicateOrder(ms[i].id, o));
      } else {
        seen := seen + {o};
      }
    }
  }

  lemma NoFaultsIsPermutation(ms: seq<Milestone>)
    ensures (forall i, c :: 0 <= i < |ms| ==> !OrderFault(ms, i, c)) <==> OrdersArePermutation(ms)
  {
    if forall i, c :: 0 <= i < |ms| ==> !OrderFault(ms, i, c) {
      forall i | 0 <= i < |ms| ensures 1 <= ms[i].order <= |ms| {
        assert !OrderFault(ms, i, OrderOutOfRange(ms[i].id, ms[i].order));
      }
      forall i, j | 0 <= i < j < |ms| ensures ms[i].order != ms[j].order {
        assert !OrderFault(ms, j, DuplicateOrder(ms[j].id, ms[j].order));
      }
      NoGap(ms);
    }
  }

  /** `checkMilestoneOrders`: silent exactly on a permutation of 1..N, one complaint per milestone whose
      order is out of range or already used, and never the gap complaint. */
  method CheckMilestoneOrders(ms: seq<Milestone>) returns (complaints: seq<Complaint>)
    ensures complaints == [] <==> OrdersArePermutation(ms)
    ensures forall c :: c in complaints <==> exists i :: 0 <= i < |ms| && OrderFault(ms, i, c)
    ensures forall c <- complaints :: !c.OrderGap?
  {
    if |ms| == 0 {
      return [];
    }
    var seen;
    complaints, seen := OrderFaults(ms);
    NoFaultsIsPermutation(ms);
    if |complaints| == 0 {
      assert forall i, c :: 0 <= i < |ms| ==> (OrderFault(ms, i, c) ==> c in complaints);
      var want := 1;
      while want <= |ms|
        invariant 1 <= want <= |ms| + 1
        invariant complaints == []
      {
        assert want in OrderSet(ms);
        if want !in seen {
          complaints := complaints + [OrderGap(want)];
          break;
        }
        want := want + 1;
      }
    } else {
      assert complaints[0] in complaints;
    }
  }

  // ---------------------------------------------------------------- hierarchy_legal

  function EpicId(epic: Option<Epic>): string {
    if epic.Some? then epic.value.id else ""
  }

  function CheckParent(it: Item, epicId: string, byId: map<string, Item>): Option<ParentFault> {
    if it.parent.None? then
      if it.kind.SubTask? then Some(NoParent) else None
    else
      var pid := it.parent.value;
      var isEpicParent := epicId != "" && pid == epicId;
      if !isEpicParent && pid !in byId then Some(Dangling)
      else if it.kind.SubTask? then
        if isEpicParent then Some(ParentIsEpic)
        else if byId[pid].kind.SubTask? then Some(ParentIsSubTask)
        else if !IsL0(byId[pid].kind) then Some(ParentNotL0)
        else None
      else if !isEpicParent then Some(L0UnderItem)
      else None
  }

  function CheckItemMilestone(it: Item, ms: seq<Milestone>): Option<MilestoneFault> {
    if |ms| == 0 then (if it.milestone.Some? then Some(NoMilestonesDeclared) else None)
    else if it.milestone.None? then Some(NoMilestone)
    else if !HasMilestone(ms, it.milestone.value) then Some(UnknownMilestone)
    else None
  }

  /** What each fault of a parent says: without one, the Sub-task has no parent; with one, it resolves to nothing; to
      the epic, a Sub-task or another item that is no L0 for a Sub-task; to an item for an L0 item. */
  lemma ParentFaultMeans(it: Item, epicId: string, byId: map<string, Item>)
    ensures var r := CheckParent(it, epicId, byId);
      && (r == Some(NoParent) <==> it.parent == None && it.kind == SubTask)
      && (it.parent.Some? ==>
            var pid := it.parent.value;
            var epic, item := epicId != "" && pid == epicId, if pid in byId then Some(byId[pid]) else None;
            && (r == Some(Dangling) <==> !epic && item == None)
            && (r == Some(ParentIsEpic) <==> it.kind == SubTask && epic)
            && (r == Some(ParentIsSubTask) <==> it.kind == SubTask && !epic && item.Some? && item.value.kind == SubTask)
            && (r == Some(ParentNotL0) <==>
                  it.kind == SubTask && !epic && item.Some? && item.value.kind.Other?)
            && (r == Some(L0UnderItem) <==> it.kind != SubTask && !epic && item.Some?))
  {
  }

  predicate HasMilestone(ms: seq<Milestone>, id: string) {
    exists j :: 0 <= j < |ms| && ms[j].id == id
  }

  ghost predicate ParentLegal(s: Skeleton, it: Item) {
    match it.parent
    case None => !it.kind.SubTask?
    case Some(pid) =>
      var underEpic := s.epic.Some? && pid != "" && pid == s.epic.value.id;
      if it.kind.SubTask? then
        !underEpic && exists j :: 0 <= j < |s.items| && s.items[j].id == pid && IsL0(s.items[j].kind)
      else underEpic
  }

  ghost predicate MilestoneLegal(s: Skeleton, it: Item) {
    if s.milestones == [] then it.milestone.None?
    else it.milestone.Some? && HasMilestone(s.milestones, it.milestone.value)
  }

  ghost predicate ItemLegal(s: Skeleton, it: Item) {
    && (forall dep <- it.dependsOn :: Declared(s.items, dep))
    && ParentLegal(s, it)
    && MilestoneLegal(s, it)
  }

  /** The rules of `hierarchy_legal`, stated without the check's lookup maps. */
  ghost predicate HierarchyLegal(s: Skeleton) {
    && DistinctIds(s.items)
    && (s.epic.Some? ==> !Declared(s.items, s.epic.value.id))
    && (forall i, j :: 0 <= i < j < |s.milestones| ==> s.milestones[i].id != s.milestones[j].id)
    && (forall i :: 0 <= i < |s.items| ==> ItemLegal(s, s.items[i]))
    && OrdersArePermutation(s.milestones)
  }

  ghost predicate DuplicateAt(s: Skeleton, i: int)
    requires 0 <= i < |s.items|
  {
    || (s.epic.Some? && s.items[i].id == s.epic.value.id)
    || exists j :: 0 <= j < i && s.items[j].id == s.items[i].id
  }

  ghost predicate ItemFault(s: Skeleton, byId: map<string, Item>, i: int, c: Complaint)
    requires 0 <= i < |s.items|
  {
    var it := s.items[i];
    || (c.UnresolvedDependency? && c.id == it.id && c.dep in it.dependsOn && c.dep !in byId)
    || (c.BadParent? && c.id == it.id && CheckParent(it, EpicId(s.epic), byId) == Some(c.fault))
    || (c.BadItemMilestone? && c.id == it.id && CheckItemMilestone(it, s.milestones) == Some(c.misfit))
  }

  method CheckItem(s: Skeleton, byId: map<string, Item>, i: int) returns (complaints: seq<Complaint>)
    requires 0 <= i < |s.items|
    ensures forall c :: c in complaints <==> ItemFault(s, byId, i, c)
  {
    var it := s.items[i];
    complaints := [];
    for k := 0 to |it.dependsOn|
      invariant forall c :: c in complaints <==>
                  c.UnresolvedDependency? && c.id == it.id && c.dep in it.dependsOn[..k] && c.dep !in byId
    {
      assert it.dependsOn[..k + 1] == it.dependsOn[..k] + [it.dependsOn[k]];
      if it.dependsOn[k] !in byId {
        complaints := complaints + [UnresolvedDependency(it.id, it.dependsOn[k])];
      }
    }
    assert it.dependsOn[..|it.dependsOn|] == it.dependsOn;
    var parentFault := CheckParent(it, EpicId(s.epic), byId);
    if parentFault.Some? {
      complaints := complaints + [BadParent(it.id, parentFault.value)];
    }
    var milestoneFault := CheckItemMilestone(it, s.milestones);
    if milestoneFault.Some? {
      complaints := complaints + [BadItemMilestone(it.id, milestoneFault.value)];
    }
  }

  /** The items by id, the last item winning. */
  method MapItems(items: seq<Item>) returns (byId: map<string, Item>)
    ensures forall id :: id in byId <==> Declared(items, id)
    ensures forall id :: id in byId ==> byId[id] == items[LastIndex(items, id)]
  {
    var index := IndexItems(items);
    byId := map id | id in index :: items[index[id]];
  }

  ghost predicate HierarchyFault(s: Skeleton, byId: map<string, Item>, c: Complaint) {
    || (c.DuplicateId? && exists i :: 0 <= i < |s.items| && DuplicateAt(s, i) && c.id == s.items[i].id)
    || (c.DuplicateMilestone? && exists j :: 0 <= j < |s.milestones| && RepeatedMilestone(s.milestones, j, c.id))
    || (exists i :: 0 <= i < |s.items| && ItemFault(s, byId, i, c))
    || (exists i :: 0 <= i < |s.milestones| && OrderFault(s.milestones, i, c))
  }

  /** `checkHierarchyLegal`: silent exactly on a legal hierarchy, and its complaints are exactly the faults. */
  method CheckHierarchyLegal(s: Skeleton) returns (complaints: seq<Complaint>, ghost byId: map<string, Item>)
    ensures complaints == [] <==> HierarchyLegal(s)
    ensures forall id :: id in byId <==> Declared(s.items, id)
    ensures forall id :: id in byId ==> byId[id] == s.items[LastIndex(s.items, id)]
    ensures forall c :: c in complaints <==> HierarchyFault(s, byId, c)
  {
    var itemIds := CheckItemIds(s);
    var items := MapItems(s.items);
    var milestoneIds := CheckMilestoneIds(s.milestones);
    var itemFaults := CheckItems(s, items);
    var orders := CheckMilestoneOrders(s.milestones);
    complaints := itemIds + milestoneIds + itemFaults + orders;
    byId := items;
    NoFaultsIsLegal(s, byId);
  }

  method CheckItemIds(s: Skeleton) returns (complaints: seq<Complaint>)
    ensures forall c :: c in complaints <==>
              c.DuplicateId? && exists i :: 0 <= i < |s.items| && DuplicateAt(s, i) && c.id == s.items[i].id
    ensures complaints == [] <==> forall i :: 0 <= i < |s.items| ==> !DuplicateAt(s, i)
  {
    var seen: set<string> := {};
    complaints := [];
    if s.epic.Some? {
      seen := {s.epic.value.id};
    }
    for i := 0 to |s.items|
      invariant forall id :: id in seen <==>
                  || (s.epic.Some? && id == s.epic.value.id)
                  || exists k :: 0 <= k < i && s.items[k].id == id
      invariant forall c :: c in complaints <==>
                  c.DuplicateId? && exists k :: 0 <= k < i && DuplicateAt(s, k) && c.id == s.items[k].id
      invariant complaints == [] <==> forall k :: 0 <= k < i ==> !DuplicateAt(s, k)
    {
      if s.items[i].id in seen {
        complaints := complaints + [DuplicateId(s.items[i].id)];
      }
      seen := seen + {s.items[i].id};
    }
  }

  ghost predicate RepeatedMilestone(ms: seq<Milestone>, j: int, id: string)
    requires 0 <= j < |ms|
  {
    ms[j].id == id && exists i :: 0 <= i < j && ms[i].id == id
  }

  method CheckMilestoneIds(ms: seq<Milestone>) returns (complaints: seq<Complaint>)
    ensures complaints == [] <==> forall i, j :: 0 <= i < j < |ms| ==> ms[i].id != ms[j].id
    ensures forall c :: c in complaints <==>
              c.DuplicateMilestone? && exists j :: 0 <= j < |ms| && RepeatedMilestone(ms, j, c.id)
  {
    complaints := [];
    var seen: set<string> := {};
    for i := 0 to |ms|
      invariant forall id :: id in seen <==> exists k :: 0 <= k < i && ms[k].id == id
      invariant complaints == [] <==> forall j, k :: 0 <= j < k < i ==> ms[j].id != ms[k].id
      invariant forall c :: c in complaints <==>
                  c.DuplicateMilestone? && exists j :: 0 <= j < i && RepeatedMilestone(ms, j, c.id)
    {
      if ms[i].id in seen {
        assert RepeatedMilestone(ms, i, ms[i].id);
        complaints := complaints + [DuplicateMilestone(ms[i].id)];
      }
      seen := seen + {ms[i].id};
    }
  }

  method CheckItems(s: Skeleton, byId: map<string, Item>) returns (complaints: seq<Complaint>)
    ensures forall c :: c in complaints <==> exists i :: 0 <= i < |s.items| && ItemFault(s, byId, i, c)
    ensures complaints == [] <==> forall i, c :: 0 <= i < |s.items| ==> !ItemFault(s, byId, i, c)
  {
    complaints := [];
    for i := 0 to |s.items|
      invariant forall c :: c in complaints <==> exists k :: 0 <= k < i && ItemFault(s, byId, k, c)
    {
      var more := CheckItem(s, byId, i);
      complaints := complaints + more;
    }
    if complaints == [] {
      forall i, c | 0 <= i < |s.items| ensures !ItemFault(s, byId, i, c) {
        assert c !in complaints;
      }
    } else {
      assert complaints[0] in complaints;
    }
  }

  /** The check's last-wins maps complain about nothing exactly when the plain rules hold. */
  lemma NoFaultsIsLegal(s: Skeleton, byId: map<string, Item>)
    requires forall id :: id in byId <==> Declared(s.items, id)
    requires forall id :: id in byId ==> byId[id] == s.items[LastIndex(s.items, id)]
    ensures HierarchyLegal(s) <==>
              && (forall i :: 0 <= i < |s.items| ==> !DuplicateAt(s, i))
              && (forall i, j :: 0 <= i < j < |s.milestones| ==> s.milestones[i].id != s.milestones[j].id)
              && (forall i, c :: 0 <= i < |s.items| ==> !ItemFault(s, byId, i, c))
              && OrdersArePermutation(s.milestones)
  {
    NoDuplicateIsDistinct(s);
    if DistinctIds(s.items) {
      forall i | 0 <= i < |s.items|
        ensures (forall c :: !ItemFault(s, byId, i, c)) <==> ItemLegal(s, s.items[i])
      {
        ItemFaultsIsIllegal(s, byId, i);
      }
    }
  }

  lemma ItemFaultsIsIllegal(s: Skeleton, byId: map<string, Item>, i: int)
    requires 0 <= i < |s.items| && DistinctIds(s.items)
    requires forall id :: id in byId <==> Declared(s.items, id)
    requires forall id :: id in byId ==> byId[id] == s.items[LastIndex(s.items, id)]
    ensures (forall c :: !ItemFault(s, byId, i, c)) <==> ItemLegal(s, s.items[i])
  {
    var it := s.items[i];
    var parentFault := CheckParent(it, EpicId(s.epic), byId);
    ParentFaultIsIllegal(s, byId, it);
    if parentFault.Some? { assert ItemFault(s, byId, i, BadParent(it.id, parentFault.value)); }
    var milestoneFault := CheckItemMilestone(it, s.milestones);
    if milestoneFault.Some? { assert ItemFault(s, byId, i, BadItemMilestone(it.id, milestoneFault.value)); }
    if dep :| dep in it.dependsOn && !Declared(s.items, dep) {
      assert ItemFault(s, byId, i, UnresolvedDependency(it.id, dep));
    }
  }

  /** `checkParent` against the lookup map agrees with the plain parenting rule. */
  lemma ParentFaultIsIllegal(s: Skeleton, byId: map<string, Item>, it: Item)
    requires DistinctIds(s.items)
    requires forall id :: id in byId <==> Declared(s.items, id)
    requires forall id :: id in byId ==> byId[id] == s.items[LastIndex(s.items, id)]
    ensures CheckParent(it, EpicId(s.epic), byId).None? <==> ParentLegal(s, it)
  {
    if it.parent.Some? && Declared(s.items, it.parent.value) {
      var j := LastIndex(s.items, it.parent.value);
      assert s.items[j].id == it.parent.value;
    }
  }

  lemma NoDuplicateIsDistinct(s: Skeleton)
    ensures (forall i :: 0 <= i < |s.items| ==> !DuplicateAt(s, i)) <==>
              DistinctIds(s.items) && (s.epic.Some? ==> !Declared(s.items, s.epic.value.id))
  {
    if forall i :: 0 <= i < |s.items| ==> !DuplicateAt(s, i) {
      forall i, j | 0 <= i < j < |s.items| ensures s.items[i].id != s.items[j].id {
        assert !DuplicateAt(s, j);
      }
      forall i | 0 <= i < |s.items| && s.epic.Some? ensures s.items[i].id != s.epic.value.id {
        assert !DuplicateAt(s, i);
      }
    }
  }
}
