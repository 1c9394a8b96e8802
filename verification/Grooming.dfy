/** What the skeleton gate, the drift check and the plan gate guarantee together. */
module Grooming {
  import opened Wrappers
  import opened Tree
  import opened ParentWalk
  import opened PlanStructure
  import SkeletonGate
  import CompareStructure
  import Schedule

  // ---------------------------------------------------------------- the plan gate alone

  /** Each link of the parent map is the resolved parent of some item of that id. */
  lemma {:induction false} LinkOwner(epic: Option<Epic>, items: seq<Item>, n: nat, u: string) returns (i: nat)
    requires n <= |items| && u in Links(epic, items, n)
    ensures i < n && items[i].id == u && LinksToItem(epic, items, items[i])
    ensures Links(epic, items, n)[u] == items[i].parent.value
  {
    if items[n - 1].id == u && LinksToItem(epic, items, items[n - 1]) {
      i := n - 1;
    } else {
      i := LinkOwner(epic, items, n - 1, u);
    }
  }

  lemma ParentOfCycleIsOnCycle(parent: ParentMap, u: string)
    requires OnCycle(parent, u)
    ensures u in parent && OnCycle(parent, parent[u])
  {
    var k: nat :| k >= 1 && Follow(parent, u, k) == Some(u);
    FollowAdds(parent, parent[u], k - 1, 1);
    assert Follow(parent, u, 1) == Some(parent[u]) by {
      assert Follow(parent, parent[u], 0) == Some(parent[u]);
    }
    assert Follow(parent, parent[u], k) == Some(parent[u]);
  }

  lemma IndexIsUnique(items: seq<Item>, i: nat)
    requires DistinctIds(items) && i < |items|
    ensures LastIndex(items, items[i].id) == i
  {
  }

  predicate UnderEpic(epic: Option<Epic>, it: Item) {
    EpicId(epic) != "" && it.parent == Some(EpicId(epic))
  }

  /** The type rules of plan mode without the lookup map. */
  ghost predicate TypeRule(epic: Option<Epic>, items: seq<Item>, it: Item) {
    var p := ParentId(it);
    if p.None? then !it.kind.SubTask?
    else if UnderEpic(epic, it) then !it.kind.SubTask?
    else Declared(items, p.value) ==>
      it.kind.SubTask? && forall j :: 0 <= j < |items| && items[j].id == p.value ==> IsL0(items[j].kind)
  }

  lemma TypeLegalIsTypeRule(epic: Option<Epic>, items: seq<Item>, it: Item)
    requires DistinctIds(items)
    ensures TypeLegal(epic, items, it) <==> TypeRule(epic, items, it)
  {
    ByIdHolds(items);
    if it.parent.Some? && Declared(items, it.parent.value) {
      var k := LastIndex(items, it.parent.value);
      assert forall m :: 0 <= m < |items| && items[m].id == it.parent.value ==> m == k;
    }
  }

  /** Of two items linked one after the other, at least one breaks the type rules. */
  lemma TwoLinksBreakTypeRules(epic: Option<Epic>, items: seq<Item>, i: nat, j: nat)
    requires UniqueIds(epic, items) && i < |items| && j < |items|
    requires LinksToItem(epic, items, items[i]) && items[i].parent.value == items[j].id
    requires LinksToItem(epic, items, items[j])
    ensures !TypeLegal(epic, items, items[i]) || !TypeLegal(epic, items, items[j])
  {
    TypeLegalIsTypeRule(epic, items, items[i]);
    TypeLegalIsTypeRule(epic, items, items[j]);
    assert Declared(items, items[i].parent.value);
    assert Declared(items, items[j].parent.value);
  }

  /** Of an item on a parent loop and its parent on that loop, at least one breaks the type rules. */
  lemma LinkOnLoopBreaksTypeRules(epic: Option<Epic>, items: seq<Item>, u: string)
    requires UniqueIds(epic, items) && OnCycle(Links(epic, items, |items|), u)
    ensures u in Links(epic, items, |items|)
    ensures exists i :: 0 <= i < |items| && !TypeLegal(epic, items, items[i])
              && (items[i].id == u || items[i].id == Links(epic, items, |items|)[u])
  {
    var parent := Links(epic, items, |items|);
    ParentOfCycleIsOnCycle(parent, u);
    ParentOfCycleIsOnCycle(parent, parent[u]);
    var i := LinkOwner(epic, items, |items|, u);
    var j := LinkOwner(epic, items, |items|, parent[u]);
    TwoLinksBreakTypeRules(epic, items, i, j);
  }

  /** With unique ids every parent loop the structural check can report has a member that breaks the type rules. */
  lemma LoopBreaksTypeRules(epic: Option<Epic>, items: seq<Item>, r: LoopReport)
    requires UniqueIds(epic, items) && Genuine(Links(epic, items, |items|), r)
    ensures exists i :: 0 <= i < |items| && items[i].id in LoopNodes(r) && !TypeLegal(epic, items, items[i])
  {
    var parent := Links(epic, items, |items|);
    LoopNodesAreOnCycle(parent, r);
    LinkOnLoopBreaksTypeRules(epic, items, r.next);
    LoopIsClosed(parent, {}, r);
    assert {} + LoopNodes(r) == LoopNodes(r);
    assert parent[r.next] in LoopNodes(r);
  }

  /** Item `it` has no parent but possibly the epic. */
  predicate AtTop(epic: Option<Epic>, it: Item) {
    var p := ParentId(it);
    p.None? || (EpicId(epic) != "" && p.value == EpicId(epic))
  }

  /** A plan that passes both checks is at most two levels deep below the epic: each item is at the top, or a
      Sub-task whose parent is an L0 item at the top. */
  lemma TwoLevels(epic: Option<Epic>, items: seq<Item>, i: nat)
    requires StructureOk(epic, items)
    requires forall k :: 0 <= k < |items| ==> TypeLegal(epic, items, items[k])
    requires i < |items|
    ensures AtTop(epic, items[i]) ||
              (items[i].kind.SubTask?
               && exists j :: (0 <= j < |items| && items[j].id == items[i].parent.value
                               && IsL0(items[j].kind) && AtTop(epic, items[j])))
    ensures items[i].kind.SubTask? ==> !AtTop(epic, items[i])
  {
    TypeLegalIsTypeRule(epic, items, items[i]);
    if !AtTop(epic, items[i]) {
      var pid := ParentId(items[i]).value;
      assert Known(epic, items, pid);
      var j := LastIndex(items, pid);
      TypeLegalIsTypeRule(epic, items, items[j]);
      assert ParentId(items[j]).Some? ==> Known(epic, items, ParentId(items[j]).value);
    }
  }

  // ---------------------------------------------------------------- from the approved skeleton to the plan

  /** With distinct ids on both sides, every plan item has its own skeleton item. */
  lemma Counterpart(s: Skeleton, p: Skeleton, i: nat) returns (j: nat)
    requires CompareStructure.SameShape(s, p) && DistinctIds(s.items) && DistinctIds(p.items)
    requires i < |p.items|
    ensures j < |s.items| && s.items[j].id == p.items[i].id
    ensures CompareStructure.SameItem(s.items[j], p.items[i])
  {
    assert Declared(p.items, p.items[i].id);
    j := LastIndex(s.items, p.items[i].id);
    IndexIsUnique(p.items, i);
    assert CompareStructure.SameItem(CompareStructure.LastItem(s.items, p.items[i].id),
                                     CompareStructure.LastItem(p.items, p.items[i].id));
  }

  /** An approved skeleton whose shape was kept gives a plan free of duplicate, self, dangling and looping
      parents exactly when the plan's item ids are distinct. */
  lemma ShapeKeptIsSound(s: Skeleton, p: Skeleton)
    requires SkeletonGate.HierarchyLegal(s) && CompareStructure.SameShape(s, p)
    ensures DistinctIds(p.items) <==>
              && UniqueIds(p.epic, p.items)
              && NoSelfParent(p.items)
              && NoDanglingParent(p.epic, p.items)
              && !HasParentLoop(p.items)
  {
    if DistinctIds(p.items) {
      forall i | 0 <= i < |p.items|
        ensures ParentId(p.items[i]) != Some(p.items[i].id)
        ensures ParentId(p.items[i]).Some? ==> Known(p.epic, p.items, ParentId(p.items[i]).value)
      {
        ParentSurvives(s, p, i);
      }
      forall u ensures !OnCycle(Links(p.epic, p.items, |p.items|), u) {
        if OnCycle(Links(p.epic, p.items, |p.items|), u) {
          NoLinkOutOfALink(s, p, u);
          assert false;
        }
      }
      UnrecordedIsNoLoop(p.epic, p.items);
    }
  }

  /** An L0 item of the approved skeleton is an L0 item of the plan. */
  lemma L0Survives(s: Skeleton, p: Skeleton, k: nat)
    requires SkeletonGate.HierarchyLegal(s) && CompareStructure.SameShape(s, p) && DistinctIds(p.items)
    requires k < |s.items| && IsL0(s.items[k].kind)
    ensures exists m :: 0 <= m < |p.items| && p.items[m].id == s.items[k].id && IsL0(p.items[m].kind)
  {
    assert Declared(s.items, s.items[k].id);
    var m := LastIndex(p.items, s.items[k].id);
    var k' := Counterpart(s, p, m);
    assert k == k';
  }

  /** The parenting rule of the skeleton gate, read off the plan's own item. */
  lemma PlanItemIsParented(s: Skeleton, p: Skeleton, i: nat)
    requires SkeletonGate.HierarchyLegal(s) && CompareStructure.SameShape(s, p) && DistinctIds(p.items)
    requires i < |p.items|
    ensures !p.items[i].kind.SubTask? ==> p.items[i].parent.None? || UnderEpic(p.epic, p.items[i])
    ensures p.items[i].kind.SubTask? ==>
              && p.items[i].parent.Some? && !UnderEpic(p.epic, p.items[i])
              && exists k :: 0 <= k < |p.items| && p.items[k].id == p.items[i].parent.value && IsL0(p.items[k].kind)
  {
    var j := Counterpart(s, p, i);
    assert SkeletonGate.ItemLegal(s, s.items[j]);
    if s.items[j].kind.SubTask? {
      var k :| 0 <= k < |s.items| && s.items[k].id == s.items[j].parent.value && IsL0(s.items[k].kind);
      L0Survives(s, p, k);
    }
  }

  /** No plan item carries the epic's id. */
  lemma EpicIdIsFree(s: Skeleton, p: Skeleton, i: nat)
    requires SkeletonGate.HierarchyLegal(s) && CompareStructure.SameShape(s, p) && i < |p.items|
    ensures p.epic.Some? ==> p.items[i].id != p.epic.value.id
  {
    assert Declared(p.items, p.items[i].id);
  }

  /** Under an approved shape, a resolved parent is never the item itself, and only Sub-tasks have item parents. */
  lemma ParentSurvives(s: Skeleton, p: Skeleton, i: nat)
    requires SkeletonGate.HierarchyLegal(s) && CompareStructure.SameShape(s, p) && DistinctIds(p.items)
    requires i < |p.items|
    ensures ParentId(p.items[i]) != Some(p.items[i].id)
    ensures ParentId(p.items[i]).Some? ==> Known(p.epic, p.items, ParentId(p.items[i]).value)
    ensures p.items[i].kind.SubTask? <==> p.items[i].parent.Some? && !UnderEpic(p.epic, p.items[i])
    ensures p.items[i].kind.SubTask? ==>
              exists k :: 0 <= k < |p.items| && p.items[k].id == p.items[i].parent.value && IsL0(p.items[k].kind)
  {
    PlanItemIsParented(s, p, i);
    EpicIdIsFree(s, p, i);
    if p.items[i].kind.SubTask? {
      var k :| 0 <= k < |p.items| && p.items[k].id == p.items[i].parent.value && IsL0(p.items[k].kind);
      assert k != i;
    }
  }

  /** An item linked to another item is a Sub-task, and what it is linked to is not. */
  lemma ItemsWithItemParents(s: Skeleton, p: Skeleton, i: nat)
    requires SkeletonGate.HierarchyLegal(s) && CompareStructure.SameShape(s, p) && DistinctIds(p.items)
    requires i < |p.items| && LinksToItem(p.epic, p.items, p.items[i])
    ensures p.items[i].kind.SubTask?
    ensures forall k :: 0 <= k < |p.items| && p.items[k].id == p.items[i].parent.value ==> !p.items[k].kind.SubTask?
  {
    ParentSurvives(s, p, i);
    var k :| 0 <= k < |p.items| && p.items[k].id == p.items[i].parent.value && IsL0(p.items[k].kind);
    assert forall m :: 0 <= m < |p.items| && p.items[m].id == p.items[k].id ==> m == k;
  }

  /** A Sub-task's parent is an L0 item, which has no item parent: no chain of two item links, so no loop. */
  lemma NoLinkOutOfALink(s: Skeleton, p: Skeleton, u: string)
    requires SkeletonGate.HierarchyLegal(s) && CompareStructure.SameShape(s, p) && DistinctIds(p.items)
    ensures !OnCycle(Links(p.epic, p.items, |p.items|), u)
  {
    var parent := Links(p.epic, p.items, |p.items|);
    if OnCycle(parent, u) {
      ParentOfCycleIsOnCycle(parent, u);
      ParentOfCycleIsOnCycle(parent, parent[u]);
      var i := LinkOwner(p.epic, p.items, |p.items|, u);
      var j := LinkOwner(p.epic, p.items, |p.items|, parent[u]);
      ItemsWithItemParents(s, p, i);
      ItemsWithItemParents(s, p, j);
      IndexIsUnique(p.items, j);
      assert false;
    }
  }

  /** Under the same hypotheses the plan's items all pass the type rules exactly when no Sub-task names the
      blank id as its parent: the skeleton gate resolves "" like any id, the plan gate reads it as no parent. */
  lemma ShapeKeptIsTypeLegal(s: Skeleton, p: Skeleton)
    requires SkeletonGate.HierarchyLegal(s) && CompareStructure.SameShape(s, p) && DistinctIds(p.items)
    ensures (forall i :: 0 <= i < |p.items| ==> TypeLegal(p.epic, p.items, p.items[i])) <==>
              (forall i :: 0 <= i < |p.items| && p.items[i].kind.SubTask? ==> p.items[i].parent != Some(""))
  {
    forall i | 0 <= i < |p.items|
      ensures TypeLegal(p.epic, p.items, p.items[i]) <==>
                (p.items[i].kind.SubTask? ==> p.items[i].parent != Some(""))
    {
      ItemTypeLegal(s, p, i);
    }
  }

  lemma ItemTypeLegal(s: Skeleton, p: Skeleton, i: nat)
    requires SkeletonGate.HierarchyLegal(s) && CompareStructure.SameShape(s, p) && DistinctIds(p.items)
    requires i < |p.items|
    ensures TypeLegal(p.epic, p.items, p.items[i]) <==>
              (p.items[i].kind.SubTask? ==> p.items[i].parent != Some(""))
  {
    TypeLegalIsTypeRule(p.epic, p.items, p.items[i]);
    ParentSurvives(s, p, i);
    if p.items[i].kind.SubTask? {
      var k :| 0 <= k < |p.items| && p.items[k].id == p.items[i].parent.value && IsL0(p.items[k].kind);
      assert forall m :: 0 <= m < |p.items| && p.items[m].id == p.items[i].parent.value ==> m == k;
    }
  }

  /** The plan keeps the dependency graph edge for edge. */
  lemma ShapeKeptKeepsEdges(s: Skeleton, p: Skeleton, u: string, v: string)
    requires CompareStructure.SameShape(s, p) && DistinctIds(s.items) && DistinctIds(p.items)
    ensures DependsEdge(s.items, u, v) <==> DependsEdge(p.items, u, v)
  {
    if DependsEdge(p.items, u, v) {
      var i :| 0 <= i < |p.items| && p.items[i].id == u && v in p.items[i].dependsOn;
      var j := Counterpart(s, p, i);
      assert v in CompareStructure.DepSet(p.items[i]);
    }
    if DependsEdge(s.items, u, v) {
      var j :| 0 <= j < |s.items| && s.items[j].id == u && v in s.items[j].dependsOn;
      assert Declared(s.items, u);
      var i := LastIndex(p.items, u);
      var j' := Counterpart(s, p, i);
      assert j == j';
      assert v in CompareStructure.DepSet(s.items[j]);
    }
  }

  /** A two-item skeleton the skeleton gate passes and the plan gate rejects, with the shape kept. */
  function BlankParentSkeleton(): Skeleton {
    Skeleton(None, [],
             [Item("", Story, None, [], None, "web-app"), Item("b", SubTask, Some(""), [], None, "web-app")])
  }

  lemma BlankParentIsLegal()
    ensures SkeletonGate.HierarchyLegal(BlankParentSkeleton())
  {
    var s := BlankParentSkeleton();
    assert s.items[0].id != s.items[1].id;
    forall i | 0 <= i < |s.items| ensures SkeletonGate.ItemLegal(s, s.items[i]) {
      assert s.items[0].id == "" && IsL0(s.items[0].kind);
    }
  }

  lemma BlankParentIsOrdered()
    ensures var s := BlankParentSkeleton();
      SkeletonGate.OrderConsistent(s.items) && Acyclic(s.items) && Schedule.Shippable(s)
  {
    var s := BlankParentSkeleton();
    SkeletonGate.OrderConsistentImpliesAcyclic(s.items);
    Schedule.NoMilestonesNoOrders(s);
  }

  lemma BlankParentPassesThenFails()
    ensures var s := BlankParentSkeleton();
      && SkeletonGate.HierarchyLegal(s) && SkeletonGate.OrderConsistent(s.items)
      && Acyclic(s.items) && Schedule.Shippable(s)
      && CompareStructure.SameShape(s, s)
      && !TypeLegal(s.epic, s.items, s.items[1])
  {
    BlankParentIsLegal();
    BlankParentIsOrdered();
  }
}
