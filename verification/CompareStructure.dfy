/** The drift check between the approved skeleton and the groomed plan. A plan's shape is a skeleton:
    its epic, its milestones and the shape fields of its items. */
module CompareStructure {
  import opened Wrappers
  import opened Tree
  import SkeletonGate
  import Schedule

  datatype Field = Type | Parent | DependsOn | MilestoneField | Repo

  datatype Violation =
    | MissingItem(id: string)
    | ExtraItem(id: string)
    | Changed(id: string, field: Field)
    | MissingMilestone(id: string)
    | ExtraMilestone(id: string)
    | MilestoneMoved(id: string)
    | EpicDropped
    | EpicIntroduced
    | EpicRenamed
    | EpicRekeyed

  function DepSet(it: Item): set<string> {
    set d | d in it.dependsOn
  }

  predicate Differs(a: Item, b: Item, f: Field) {
    match f
    case Type => a.kind != b.kind
    case Parent => a.parent != b.parent
    case DependsOn => DepSet(a) != DepSet(b)
    case MilestoneField => a.milestone != b.milestone
    case Repo => a.repo != b.repo
  }

  function LastItem(items: seq<Item>, id: string): Item
    requires Declared(items, id)
  {
    items[LastIndex(items, id)]
  }

  /** What counts as drift, kind by kind. */
  ghost predicate Drift(s: Skeleton, p: Skeleton, v: Violation) {
    match v
    case MissingItem(id) => Declared(s.items, id) && !Declared(p.items, id)
    case ExtraItem(id) => Declared(p.items, id) && !Declared(s.items, id)
    case Changed(id, f) =>
      Declared(s.items, id) && Declared(p.items, id) && Differs(LastItem(s.items, id), LastItem(p.items, id), f)
    case MissingMilestone(id) =>
      Schedule.MilestoneOrder(s.milestones, id).Some? && Schedule.MilestoneOrder(p.milestones, id).None?
    case ExtraMilestone(id) =>
      Schedule.MilestoneOrder(p.milestones, id).Some? && Schedule.MilestoneOrder(s.milestones, id).None?
    case MilestoneMoved(id) =>
      && Schedule.MilestoneOrder(s.milestones, id).Some? && Schedule.MilestoneOrder(p.milestones, id).Some?
      && Schedule.MilestoneOrder(s.milestones, id) != Schedule.MilestoneOrder(p.milestones, id)
    case EpicDropped => s.epic.Some? && p.epic.None?
    case EpicIntroduced => s.epic.None? && p.epic.Some?
    case EpicRenamed => s.epic.Some? && p.epic.Some? && s.epic.value.id != p.epic.value.id
    case EpicRekeyed => s.epic.Some? && p.epic.Some? && s.epic.value.existingKey != p.epic.value.existingKey
  }

  ghost predicate SameItem(a: Item, b: Item) {
    a.kind == b.kind && a.parent == b.parent && DepSet(a) == DepSet(b) && a.milestone == b.milestone && a.repo == b.repo
  }

  /** The plan kept the approved shape (ids as seen through last-wins maps). */
  ghost predicate SameShape(s: Skeleton, p: Skeleton) {
    && (forall id :: Declared(s.items, id) <==> Declared(p.items, id))
    && (forall id :: Declared(s.items, id) && Declared(p.items, id) ==>
          SameItem(LastItem(s.items, id), LastItem(p.items, id)))
    && (forall id :: Schedule.MilestoneOrder(s.milestones, id) == Schedule.MilestoneOrder(p.milestones, id))
    && s.epic == p.epic
  }

  lemma NoDriftIsSameShape(s: Skeleton, p: Skeleton)
    ensures (forall v :: !Drift(s, p, v)) <==> SameShape(s, p)
  {
    if forall v :: !Drift(s, p, v) {
      forall id ensures Declared(s.items, id) <==> Declared(p.items, id) {
        assert !Drift(s, p, MissingItem(id)) && !Drift(s, p, ExtraItem(id));
      }
      forall id | Declared(s.items, id) && Declared(p.items, id)
        ensures SameItem(LastItem(s.items, id), LastItem(p.items, id))
      {
        assert !Drift(s, p, Changed(id, Type)) && !Drift(s, p, Changed(id, Parent));
        assert !Drift(s, p, Changed(id, DependsOn)) && !Drift(s, p, Changed(id, MilestoneField));
        assert !Drift(s, p, Changed(id, Repo));
      }
      forall id ensures Schedule.MilestoneOrder(s.milestones, id) == Schedule.MilestoneOrder(p.milestones, id) {
        assert !Drift(s, p, MissingMilestone(id)) && !Drift(s, p, ExtraMilestone(id));
        assert !Drift(s, p, MilestoneMoved(id));
      }
      assert !Drift(s, p, EpicDropped) && !Drift(s, p, EpicIntroduced);
      assert !Drift(s, p, EpicRenamed) && !Drift(s, p, EpicRekeyed);
    } else {
      var v :| Drift(s, p, v);
    }
  }

  /** The keys of a JavaScript `Map` filled in this order: each id once, at its first occurrence. */
  method KeyOrder(ids: seq<string>) returns (keys: seq<string>)
    ensures forall id :: id in keys <==> id in ids
    ensures forall i, j :: 0 <= i < j < |keys| ==> keys[i] != keys[j]
  {
    keys := [];
    for i := 0 to |ids|
      invariant forall id :: id in keys <==> id in ids[..i]
      invariant forall j, k :: 0 <= j < k < |keys| ==> keys[j] != keys[k]
    {
      assert ids[..i + 1] == ids[..i] + [ids[i]];
      if ids[i] !in keys {
        keys := keys + [ids[i]];
      }
    }
    assert ids[..|ids|] == ids;
  }

  method ItemKeys(items: seq<Item>) returns (keys: seq<string>)
    ensures forall id :: id in keys <==> Declared(items, id)
  {
    var ids := seq(|items|, i requires 0 <= i < |items| => items[i].id);
    forall id | Declared(items, id) ensures id in ids {
      var i :| 0 <= i < |items| && items[i].id == id;
      assert ids[i] == id;
    }
    keys := KeyOrder(ids);
  }

  /** The set test of the check (sizes differ, or some element is missing) is inequality. */
  lemma SetTestIsInequality(a: set<string>, b: set<string>)
    ensures (|a| != |b| || exists d <- a :: d !in b) <==> a != b
  {
    if |a| == |b| && forall d <- a :: d in b {
      SkeletonGate.SubsetOfSameSize(a, b);
    }
  }

  /** Pushes one violation if the field changed. */
  method PushIf(changed: bool, before: seq<Violation>, id: string, field: Field) returns (violations: seq<Violation>)
    ensures forall v :: v in violations <==> v in before || (changed && v == Changed(id, field))
  {
    violations := if changed then before + [Changed(id, field)] else before;
  }

  method CompareItem(id: string, a: Item, b: Item) returns (violations: seq<Violation>)
    ensures forall v :: v in violations <==> v.Changed? && v.id == id && Differs(a, b, v.field)
  {
    var aDeps, bDeps := DepSet(a), DepSet(b);
    SetTestIsInequality(aDeps, bDeps);
    violations := PushIf(b.kind != a.kind, [], id, Type);
    violations := PushIf(b.parent != a.parent, violations, id, Parent);
    violations := PushIf(|aDeps| != |bDeps| || exists d <- aDeps :: d !in bDeps, violations, id, DependsOn);
    violations := PushIf(b.milestone != a.milestone, violations, id, MilestoneField);
    violations := PushIf(b.repo != a.repo, violations, id, Repo);
  }

  /** The ids of `keys` that `others` lacks. */
  method Absent(keys: seq<string>, others: map<string, Item>) returns (ids: seq<string>)
    ensures forall id :: id in ids <==> id in keys && id !in others
  {
    ids := [];
    for i := 0 to |keys|
      invariant forall id :: id in ids <==> id in keys[..i] && id !in others
    {
      assert keys[..i + 1] == keys[..i] + [keys[i]];
      if keys[i] !in others {
        ids := ids + [keys[i]];
      }
    }
    assert keys[..|keys|] == keys;
  }

  method ChangedItems(keys: seq<string>, sItems: map<string, Item>, pItems: map<string, Item>)
    returns (violations: seq<Violation>)
    requires forall id <- keys :: id in sItems
    ensures forall v :: v in violations <==>
              v.Changed? && v.id in keys && v.id in pItems && v.id in sItems && Differs(sItems[v.id], pItems[v.id], v.field)
  {
    violations := [];
    for i := 0 to |keys|
      invariant forall v :: v in violations <==>
                  v.Changed? && v.id in keys[..i] && v.id in pItems && v.id in sItems
                  && Differs(sItems[v.id], pItems[v.id], v.field)
    {
      assert keys[..i + 1] == keys[..i] + [keys[i]];
      if keys[i] in pItems {
        var more := CompareItem(keys[i], sItems[keys[i]], pItems[keys[i]]);
        violations := violations + more;
      }
    }
    assert keys[..|keys|] == keys;
  }

  function MissingItems(ids: seq<string>): (r: seq<Violation>)
    ensures |r| == |ids| && forall i :: 0 <= i < |ids| ==> r[i] == MissingItem(ids[i])
  {
    seq(|ids|, i requires 0 <= i < |ids| => MissingItem(ids[i]))
  }

  function ExtraItems(ids: seq<string>): (r: seq<Violation>)
    ensures |r| == |ids| && forall i :: 0 <= i < |ids| ==> r[i] == ExtraItem(ids[i])
  {
    seq(|ids|, i requires 0 <= i < |ids| => ExtraItem(ids[i]))
  }

  lemma MissingAndExtra(ids: seq<string>, v: Violation)
    ensures v in MissingItems(ids) <==> v.MissingItem? && v.id in ids
    ensures v in ExtraItems(ids) <==> v.ExtraItem? && v.id in ids
  {
    if (v.MissingItem? || v.ExtraItem?) && v.id in ids {
      var i :| 0 <= i < |ids| && ids[i] == v.id;
      assert MissingItems(ids)[i] == MissingItem(v.id) && ExtraItems(ids)[i] == ExtraItem(v.id);
    }
  }

  method CompareItems(s: Skeleton, p: Skeleton) returns (violations: seq<Violation>)
    ensures forall v :: v in violations <==> (v.MissingItem? || v.ExtraItem? || v.Changed?) && Drift(s, p, v)
  {
    var sItems := SkeletonGate.MapItems(s.items);
    var pItems := SkeletonGate.MapItems(p.items);
    var sKeys := ItemKeys(s.items);
    var pKeys := ItemKeys(p.items);
    var missing := Absent(sKeys, pItems);
    var extra := Absent(pKeys, sItems);
    var changed := ChangedItems(sKeys, sItems, pItems);
    violations := MissingItems(missing) + ExtraItems(extra) + changed;
    forall v ensures v in MissingItems(missing) + ExtraItems(extra) <==>
                       (v.MissingItem? && v.id in missing) || (v.ExtraItem? && v.id in extra)
    {
      MissingAndExtra(missing, v);
      MissingAndExtra(extra, v);
    }
  }

  method CompareMilestones(s: Skeleton, p: Skeleton) returns (violations: seq<Violation>)
    ensures forall v :: v in violations <==>
              (v.MissingMilestone? || v.ExtraMilestone? || v.MilestoneMoved?) && Drift(s, p, v)
  {
    var sMs := Schedule.MapMilestones(s.milestones);
    var pMs := Schedule.MapMilestones(p.milestones);
    OrdersInMaps(s, sMs);
    OrdersInMaps(p, pMs);
    var sKeys := MilestoneKeys(s.milestones, sMs);
    var pKeys := MilestoneKeys(p.milestones, pMs);
    violations := [];
    for i := 0 to |sKeys|
      invariant forall v :: v in violations <==>
                  || (v.MissingMilestone? && v.id in sKeys[..i] && v.id !in pMs)
                  || (v.MilestoneMoved? && v.id in sKeys[..i] && v.id in pMs && v.id in sMs && pMs[v.id] != sMs[v.id])
    {
      assert sKeys[..i + 1] == sKeys[..i] + [sKeys[i]];
      var id := sKeys[i];
      if id !in pMs {
        violations := violations + [MissingMilestone(id)];
      } else if pMs[id] != sMs[id] {
        violations := violations + [MilestoneMoved(id)];
      }
    }
    assert sKeys[..|sKeys|] == sKeys;
    ghost var before := violations;
    for i := 0 to |pKeys|
      invariant forall v :: v in violations <==>
                  v in before || (v.ExtraMilestone? && v.id in pKeys[..i] && v.id !in sMs)
    {
      assert pKeys[..i + 1] == pKeys[..i] + [pKeys[i]];
      if pKeys[i] !in sMs {
        violations := violations + [ExtraMilestone(pKeys[i])];
      }
    }
    assert pKeys[..|pKeys|] == pKeys;
  }

  lemma OrdersInMaps(s: Skeleton, order: map<string, int>)
    requires forall id :: (if id in order then Some(order[id]) else None) == Schedule.MilestoneOrder(s.milestones, id)
    ensures forall id :: id in order <==> Schedule.MilestoneOrder(s.milestones, id).Some?
    ensures forall id :: id in order ==> Schedule.MilestoneOrder(s.milestones, id) == Some(order[id])
  {
  }

  method MilestoneKeys(ms: seq<Milestone>, order: map<string, int>) returns (keys: seq<string>)
    requires forall id :: (if id in order then Some(order[id]) else None) == Schedule.MilestoneOrder(ms, id)
    ensures forall id :: id in keys <==> id in order
  {
    var ids := seq(|ms|, i requires 0 <= i < |ms| => ms[i].id);
    keys := KeyOrder(ids);
    forall id ensures id in ids <==> id in order {
      assert (if id in order then Some(order[id]) else None) == Schedule.MilestoneOrder(ms, id);
      ListedHasOrder(ms, id);
      if SkeletonGate.HasMilestone(ms, id) {
        var i :| 0 <= i < |ms| && ms[i].id == id;
        assert ids[i] == id;
      }
    }
  }

  lemma {:induction false} ListedHasOrder(ms: seq<Milestone>, id: string)
    ensures SkeletonGate.HasMilestone(ms, id) <==> Schedule.MilestoneOrder(ms, id).Some?
  {
    if ms != [] {
      var front := ms[..|ms| - 1];
      ListedHasOrder(front, id);
      if i :| 0 <= i < |front| && front[i].id == id { assert ms[i].id == id; }
      if i :| 0 <= i < |ms| && ms[i].id == id && i < |front| { assert front[i].id == id; }
    }
  }

  /** `compareStructure`: lists exactly the drift, and nothing exactly when the shape was kept. */
  method Compare(s: Skeleton, p: Skeleton) returns (violations: seq<Violation>)
    ensures forall v :: v in violations <==> Drift(s, p, v)
    ensures violations == [] <==> SameShape(s, p)
  {
    var itemDrift := CompareItems(s, p);
    var milestoneDrift := CompareMilestones(s, p);
    var epicDrift := CompareEpics(s.epic, p.epic);
    violations := itemDrift + milestoneDrift + epicDrift;
    NoDriftIsSameShape(s, p);
    if violations != [] {
      assert violations[0] in violations;
    }
  }

  method CompareEpics(sEpic: Option<Epic>, pEpic: Option<Epic>) returns (violations: seq<Violation>)
    ensures forall v :: v in violations <==>
              match v
              case EpicDropped => sEpic.Some? && pEpic.None?
              case EpicIntroduced => sEpic.None? && pEpic.Some?
              case EpicRenamed => sEpic.Some? && pEpic.Some? && sEpic.value.id != pEpic.value.id
              case EpicRekeyed => sEpic.Some? && pEpic.Some? && sEpic.value.existingKey != pEpic.value.existingKey
              case _ => false
  {
    violations := [];
    if sEpic.Some? != pEpic.Some? {
      violations := [if sEpic.Some? then EpicDropped else EpicIntroduced];
    } else if sEpic.Some? && pEpic.Some? {
      if pEpic.value.id != sEpic.value.id {
        violations := violations + [EpicRenamed];
      }
      if pEpic.value.existingKey != sEpic.value.existingKey {
        violations := violations + [EpicRekeyed];
      }
    }
  }
}
