/** The plan-level structural pre-gate and the per-item type rules of the plan gate. */
module PlanStructure {
  import opened Wrappers
  import opened Tree
  import opened Text
  import opened ParentWalk
  import SkeletonGate

  datatype PlanFault =
    | DuplicateTempId(id: string)
    | SelfParent(id: string)
    | DanglingParent(id: string, parent: string)
    | LoopingChain(report: LoopReport)
    | BadExistingKey(key: string)

  /** The declared parent id, with an empty string read as no parent at all. */
  function ParentId(it: Item): Option<string> {
    if it.parent == Some("") then None else it.parent
  }

  function EpicId(epic: Option<Epic>): string {
    SkeletonGate.EpicId(epic)
  }

  /** Ids an item may name as its parent: the epic's (unless blank) and the items'. */
  predicate Known(epic: Option<Epic>, items: seq<Item>, id: string) {
    (EpicId(epic) != "" && id == EpicId(epic)) || Declared(items, id)
  }

  ghost predicate UniqueIds(epic: Option<Epic>, items: seq<Item>) {
    DistinctIds(items) && (EpicId(epic) != "" ==> !Declared(items, EpicId(epic)))
  }

  ghost predicate NoSelfParent(items: seq<Item>) {
    forall i :: 0 <= i < |items| ==> ParentId(items[i]) != Some(items[i].id)
  }

  ghost predicate NoDanglingParent(epic: Option<Epic>, items: seq<Item>) {
    forall i :: 0 <= i < |items| && ParentId(items[i]).Some? && ParentId(items[i]) != Some(items[i].id) ==>
                  Known(epic, items, ParentId(items[i]).value)
  }

  /** Item `it` has a resolvable parent other than itself and the epic. */
  predicate LinksToItem(epic: Option<Epic>, items: seq<Item>, it: Item) {
    var p := ParentId(it);
    p.Some? && p.value != it.id && Known(epic, items, p.value) && p.value != EpicId(epic)
  }

  /** The parent map after the first `n` items: a later item of the same id overwrites an earlier one. */
  function Links(epic: Option<Epic>, items: seq<Item>, n: nat): ParentMap
    requires n <= |items|
  {
    if n == 0 then map[]
    else
      var m := Links(epic, items, n - 1);
      var it := items[n - 1];
      if LinksToItem(epic, items, it) then m[it.id := it.parent.value] else m
  }

  /** The linking item that decides the parent recorded for its id. */
  ghost predicate LastLink(epic: Option<Epic>, items: seq<Item>, n: nat, i: int)
    requires n <= |items|
  {
    && 0 <= i < n && LinksToItem(epic, items, items[i])
    && forall j :: i < j < n && items[j].id == items[i].id ==> !LinksToItem(epic, items, items[j])
  }

  /** The parent map records the last link of every id, and nothing else. */
  lemma LinkIsRecorded(epic: Option<Epic>, items: seq<Item>)
    ensures forall i :: LastLink(epic, items, |items|, i) ==> RecordedAt(Links(epic, items, |items|), items[i])
    ensures forall u :: u in Links(epic, items, |items|) ==>
              exists i :: LastLink(epic, items, |items|, i) && items[i].id == u
  {
    forall i | LastLink(epic, items, |items|, i) ensures RecordedAt(Links(epic, items, |items|), items[i]) {
      LastLinkIsRecorded(epic, items, |items|, i);
    }
    forall u | u in Links(epic, items, |items|)
      ensures exists i :: LastLink(epic, items, |items|, i) && items[i].id == u
    {
      RecordedHasALink(epic, items, |items|, u);
    }
  }

  predicate RecordedAt(parent: ParentMap, it: Item) {
    it.parent.Some? && it.id in parent && parent[it.id] == it.parent.value
  }

  lemma {:induction false} LastLinkIsRecorded(epic: Option<Epic>, items: seq<Item>, n: nat, i: int)
    requires n <= |items| && LastLink(epic, items, n, i)
    ensures RecordedAt(Links(epic, items, n), items[i])
  {
    if i < n - 1 { LastLinkIsRecorded(epic, items, n - 1, i); }
  }

  lemma {:induction false} RecordedHasALink(epic: Option<Epic>, items: seq<Item>, n: nat, u: string)
    requires n <= |items| && u in Links(epic, items, n)
    ensures exists i :: LastLink(epic, items, n, i) && items[i].id == u
  {
    if items[n - 1].id == u && LinksToItem(epic, items, items[n - 1]) {
      assert LastLink(epic, items, n, n - 1);
    } else {
      RecordedHasALink(epic, items, n - 1, u);
      var i :| LastLink(epic, items, n - 1, i) && items[i].id == u;
      assert LastLink(epic, items, n, i);
    }
  }

  /** Item `i` names item `j` as its parent; a blank name is no parent. */
  predicate ParentEdge(items: seq<Item>, i: nat, j: nat) {
    i < |items| && j < |items| && items[j].id != "" && items[i].parent == Some(items[j].id)
  }

  /** A closed walk along the items, each naming the next one as its parent. */
  ghost predicate ParentCycle(items: seq<Item>, q: seq<nat>) {
    && |q| >= 2 && q[0] == q[|q| - 1]
    && (forall k :: 0 <= k < |q| ==> q[k] < |items|)
    && forall k :: 0 <= k < |q| - 1 ==> ParentEdge(items, q[k], q[k + 1])
  }

  /** Some item is its own ancestor. */
  ghost predicate HasParentLoop(items: seq<Item>) {
    exists q :: ParentCycle(items, q)
  }

  predicate JiraKey(key: string) {
    exists d :: 0 < d < |key| - 1 && key[d] == '-'
      && 'A' <= key[0] <= 'Z'
      && (forall k :: 0 <= k < d ==> 'A' <= key[k] <= 'Z' || '0' <= key[k] <= '9')
      && (forall k :: d < k < |key| ==> '0' <= key[k] <= '9')
  }

  predicate IsProject(s: string) {
    s != "" && 'A' <= s[0] <= 'Z' && forall k :: 0 <= k < |s| ==> 'A' <= s[k] <= 'Z' || '0' <= s[k] <= '9'
  }

  predicate IsNumber(s: string) {
    s != "" && forall k :: 0 <= k < |s| ==> '0' <= s[k] <= '9'
  }

  /** The dash at `d` cuts the text into a project and a number. */
  predicate DashAt(key: string, d: int) {
    0 < d < |key| - 1 && key[d] == '-' && IsProject(key[..d]) && IsNumber(key[d + 1..])
  }

  lemma JiraKeyHasADash(key: string)
    ensures JiraKey(key) <==> exists d :: DashAt(key, d)
  {
    if d :| DashAt(key, d) {
      assert forall k :: 0 <= k < d ==> key[k] == key[..d][k];
      assert forall k :: d < k < |key| ==> key[k] == key[d + 1..][k - d - 1];
    }
    if JiraKey(key) {
      var d :| 0 < d < |key| - 1 && key[d] == '-' && 'A' <= key[0] <= 'Z'
        && (forall k :: 0 <= k < d ==> 'A' <= key[k] <= 'Z' || '0' <= key[k] <= '9')
        && (forall k :: d < k < |key| ==> '0' <= key[k] <= '9');
      assert DashAt(key, d);
    }
  }

  /** A dash that cuts off a number stands behind every other dash. */
  lemma NoDashBehind(key: string, d: int, e: int)
    requires DashAt(key, d) && 0 <= e < |key| && key[e] == '-'
    ensures e <= d
  {
    assert forall k :: d < k < |key| ==> key[k] == key[d + 1..][k - d - 1];
  }

  lemma DashIsLast(project: string, number: string, d: int)
    requires '-' !in number && DashAt(project + "-" + number, d)
    ensures d == |project|
  {
    var key := project + "-" + number;
    assert key[|project|] == '-';
    NoDashBehind(key, d, |project|);
    assert forall k :: |project| < k < |key| ==> key[k] == number[k - |project| - 1] && key[k] in number;
  }

  /** A key is a project in capitals and digits, a dash, and a number. */
  lemma JiraKeyIsProjectAndNumber(project: string, number: string)
    requires '-' !in number
    ensures JiraKey(project + "-" + number) <==> IsProject(project) && IsNumber(number)
  {
    var key := project + "-" + number;
    JiraKeyHasADash(key);
    assert key[..|project|] == project && key[|project| + 1..] == number;
    assert IsProject(project) && IsNumber(number) ==> DashAt(key, |project|);
    if d :| DashAt(key, d) { DashIsLast(project, number, d); }
  }

  lemma DashIsNeeded(key: string)
    requires '-' !in key
    ensures !JiraKey(key)
  {
    assert forall d :: 0 <= d < |key| ==> key[d] in key;
  }

  /** A blank existing key counts as none; any other must have the shape of a Jira issue key. */
  predicate ExistingKeyOk(epic: Option<Epic>) {
    epic.Some? && epic.value.existingKey.Some? ==>
      var key := TrimSpace(epic.value.existingKey.value);
      key == "" || JiraKey(key)
  }

  ghost predicate StructureOk(epic: Option<Epic>, items: seq<Item>) {
    && UniqueIds(epic, items)
    && NoSelfParent(items)
    && NoDanglingParent(epic, items)
    && !HasParentLoop(items)
    && ExistingKeyOk(epic)
  }

  ghost predicate Repeated(epic: Option<Epic>, items: seq<Item>, i: int)
    requires 0 <= i < |items|
  {
    || (EpicId(epic) != "" && items[i].id == EpicId(epic))
    || exists j :: 0 <= j < i && items[j].id == items[i].id
  }

  method CheckDuplicates(epic: Option<Epic>, items: seq<Item>) returns (seen: set<string>, faults: seq<PlanFault>)
    ensures forall id :: id in seen <==> Known(epic, items, id)
    ensures forall f :: f in faults <==> DuplicateFault(epic, items, f)
    ensures faults == [] <==> UniqueIds(epic, items)
  {
    seen, faults := {}, [];
    if epic.Some? && epic.value.id != "" {
      seen := {epic.value.id};
    }
    for i := 0 to |items|
      invariant forall id :: id in seen <==>
                  || (EpicId(epic) != "" && id == EpicId(epic))
                  || exists k :: 0 <= k < i && items[k].id == id
      invariant forall f :: f in faults <==>
                  f.DuplicateTempId? && exists k :: 0 <= k < i && Repeated(epic, items, k) && f.id == items[k].id
      invariant faults == [] <==> forall k :: 0 <= k < i ==> !Repeated(epic, items, k)
    {
      if items[i].id in seen {
        faults := faults + [DuplicateTempId(items[i].id)];
      }
      seen := seen + {items[i].id};
    }
    NoneRepeatedIsUnique(epic, items);
  }

  lemma NoneRepeatedIsUnique(epic: Option<Epic>, items: seq<Item>)
    ensures (forall i :: 0 <= i < |items| ==> !Repeated(epic, items, i)) <==> UniqueIds(epic, items)
  {
    if forall i :: 0 <= i < |items| ==> !Repeated(epic, items, i) {
      forall i, j | 0 <= i < j < |items| ensures items[i].id != items[j].id {
        assert !Repeated(epic, items, j);
      }
      forall i | 0 <= i < |items| && EpicId(epic) != "" ensures items[i].id != EpicId(epic) {
        assert !Repeated(epic, items, i);
      }
    }
  }

  ghost predicate ParentFaultOf(epic: Option<Epic>, items: seq<Item>, it: Item, f: PlanFault) {
    var p := ParentId(it);
    && p.Some?
    && (if p.value == it.id then f == SelfParent(it.id)
        else !Known(epic, items, p.value) && f == DanglingParent(it.id, p.value))
  }

  method CheckParents(epic: Option<Epic>, items: seq<Item>, seen: set<string>)
    returns (parent: ParentMap, faults: seq<PlanFault>)
    requires forall id :: id in seen <==> Known(epic, items, id)
    ensures parent == Links(epic, items, |items|)
    ensures forall i :: LastLink(epic, items, |items|, i) ==> RecordedAt(parent, items[i])
    ensures forall u :: u in parent ==> exists i :: LastLink(epic, items, |items|, i) && items[i].id == u
    ensures forall f :: f in faults <==> ParentFault(epic, items, f)
    ensures faults == [] <==> NoSelfParent(items) && NoDanglingParent(epic, items)
  {
    parent, faults := map[], [];
    for i := 0 to |items|
      invariant parent == Links(epic, items, i)
      invariant forall f :: f in faults <==> exists k :: 0 <= k < i && ParentFaultOf(epic, items, items[k], f)
    {
      var it := items[i];
      if it.parent.Some? && it.parent.value != "" {
        var pid := it.parent.value;
        if pid == it.id {
          faults := faults + [SelfParent(it.id)];
        } else if pid !in seen {
          faults := faults + [DanglingParent(it.id, pid)];
        } else if pid != EpicId(epic) {
          parent := parent[it.id := pid];
        }
      }
    }
    NoParentFaults(epic, items, faults);
    LinkIsRecorded(epic, items);
  }

  lemma NoParentFaults(epic: Option<Epic>, items: seq<Item>, faults: seq<PlanFault>)
    requires forall f :: f in faults <==> ParentFault(epic, items, f)
    ensures faults == [] <==> NoSelfParent(items) && NoDanglingParent(epic, items)
  {
    if faults != [] {
      assert faults[0] in faults;
    } else {
      forall i | 0 <= i < |items|
        ensures ParentId(items[i]) != Some(items[i].id)
        ensures ParentId(items[i]).Some? ==> Known(epic, items, ParentId(items[i]).value)
      {
        var p := ParentId(items[i]);
        assert SelfParent(items[i].id) !in faults;
        if p.Some? { assert DanglingParent(items[i].id, p.value) !in faults; }
      }
    }
  }

  lemma {:induction false} LinksAreDeclared(epic: Option<Epic>, items: seq<Item>, n: nat)
    requires n <= |items|
    ensures forall u :: u in Links(epic, items, n) ==>
              Declared(items, u) && Declared(items, Links(epic, items, n)[u])
  {
    if n > 0 { LinksAreDeclared(epic, items, n - 1); }
  }

  // ---------------------------------------------------------------- loops on the items

  function IdsOf(items: seq<Item>, q: seq<nat>): (r: seq<string>)
    requires forall k :: 0 <= k < |q| ==> q[k] < |items|
    ensures |r| == |q| && forall k :: 0 <= k < |q| ==> r[k] == items[q[k]].id
  {
    seq(|q|, k requires 0 <= k < |q| => items[q[k]].id)
  }

  /** With unique ids, naming another item as parent is recorded as such. */
  lemma EdgeIsRecorded(epic: Option<Epic>, items: seq<Item>, i: nat, j: nat)
    requires UniqueIds(epic, items) && ParentEdge(items, i, j) && i != j
    ensures var parent := Links(epic, items, |items|);
      items[i].id in parent && parent[items[i].id] == items[j].id
  {
    assert Declared(items, items[j].id);
    assert LastLink(epic, items, |items|, i);
    LinkIsRecorded(epic, items);
  }

  /** An item that is its own parent leads nowhere else. */
  lemma {:induction false} SelfParentStays(items: seq<Item>, q: seq<nat>, a: nat, b: nat)
    requires DistinctIds(items) && ParentCycle(items, q) && a <= b < |q|
    requires a < |q| - 1 && q[a] == q[a + 1]
    ensures q[b] == q[a]
    decreases b - a
  {
    if a < b {
      if a + 1 < |q| - 1 {
        assert ParentEdge(items, q[a], q[a + 1]) && ParentEdge(items, q[a + 1], q[a + 2]);
        assert q[a + 2] == q[a + 1];
        SelfParentStays(items, q, a + 1, b);
      }
    }
  }

  /** A closed walk of items that does not start at its own parent runs along recorded links. */
  lemma WalkIsRecorded(epic: Option<Epic>, items: seq<Item>, q: seq<nat>)
    requires UniqueIds(epic, items) && ParentCycle(items, q) && !ParentEdge(items, q[0], q[0])
    ensures ParentChain(Links(epic, items, |items|), IdsOf(items, q))
  {
    var parent, path := Links(epic, items, |items|), IdsOf(items, q);
    forall k | 0 <= k < |q| - 1 ensures q[k] != q[k + 1] {
      if q[k] == q[k + 1] {
        assert ParentEdge(items, q[k], q[k + 1]);
        SelfParentStays(items, q, k, |q| - 1);
      }
    }
    forall k | 0 <= k < |path| - 1 ensures path[k] in parent && parent[path[k]] == path[k + 1] {
      assert ParentEdge(items, q[k], q[k + 1]);
      EdgeIsRecorded(epic, items, q[k], q[k + 1]);
    }
  }

  /** Every id of such a walk is on a cycle of the parent map, inside any closed set that holds the first one. */
  lemma WalkIsOnCycle(epic: Option<Epic>, items: seq<Item>, q: seq<nat>)
    requires UniqueIds(epic, items) && ParentCycle(items, q) && !ParentEdge(items, q[0], q[0])
    ensures OnCycle(Links(epic, items, |items|), items[q[0]].id)
    ensures forall s :: Closed(Links(epic, items, |items|), s) && items[q[0]].id in s ==>
              forall k :: 0 <= k < |q| ==> items[q[k]].id in s
  {
    WalkIsRecorded(epic, items, q);
    var parent, path := Links(epic, items, |items|), IdsOf(items, q);
    FollowChain(parent, path, 0, |q| - 1);
    forall s, k | Closed(parent, s) && items[q[0]].id in s && 0 <= k < |q| ensures items[q[k]].id in s {
      FollowChain(parent, path, 0, k);
      FollowStaysInside(parent, s, path[0], k);
    }
  }

  /** The report holds every item of the walk. */
  ghost predicate Holds(items: seq<Item>, r: LoopReport, q: seq<nat>) {
    forall k :: 0 <= k < |q| ==> q[k] < |items| && items[q[k]].id in LoopNodes(r)
  }

  ghost predicate InAReport(loops: seq<LoopReport>, u: string) {
    exists r <- loops :: u in LoopNodes(r)
  }

  /** The reports are genuine and leave no cycle of the parent map out. */
  ghost predicate ReportsFit(parent: ParentMap, loops: seq<LoopReport>) {
    && (forall r <- loops :: Genuine(parent, r))
    && forall u :: OnCycle(parent, u) ==> InAReport(loops, u)
  }

  lemma LoopsFit(parent: ParentMap, loops: seq<LoopReport>)
    requires forall r <- loops :: Genuine(parent, r)
    requires forall u :: OnCycle(parent, u) ==> exists r <- loops :: u in LoopNodes(r)
    ensures ReportsFit(parent, loops)
  {
  }

  /** A closed walk of items lies inside the report that holds its first item. */
  lemma WalkIsReported(epic: Option<Epic>, items: seq<Item>, q: seq<nat>, loops: seq<LoopReport>)
    requires UniqueIds(epic, items) && ParentCycle(items, q) && !ParentEdge(items, q[0], q[0])
    requires ReportsFit(Links(epic, items, |items|), loops)
    ensures exists r <- loops :: Holds(items, r, q)
  {
    var parent, u := Links(epic, items, |items|), items[q[0]].id;
    WalkIsOnCycle(epic, items, q);
    assert InAReport(loops, u);
    var r :| r in loops && u in LoopNodes(r);
    LoopIsClosed(parent, {}, r);
    assert {} + LoopNodes(r) == LoopNodes(r);
    assert Holds(items, r, q);
  }

  /** A recorded link leads from an item to the item it names. */
  lemma RecordedIsAnEdge(epic: Option<Epic>, items: seq<Item>, u: string)
    requires UniqueIds(epic, items) && u in Links(epic, items, |items|)
    ensures var v := Links(epic, items, |items|)[u];
      Declared(items, u) && Declared(items, v) && ParentEdge(items, LastIndex(items, u), LastIndex(items, v))
  {
    LinksAreDeclared(epic, items, |items|);
    LinkIsRecorded(epic, items);
    var i :| LastLink(epic, items, |items|, i) && items[i].id == u;
    assert i == LastIndex(items, u);
  }

  /** The ids of a reported loop, back to the first. */
  function LoopIds(r: LoopReport): (ids: seq<string>)
    requires r.next in r.path
    ensures |ids| >= 2 && ids[0] == ids[|ids| - 1] == r.next
    ensures forall u :: u in ids <==> u in LoopNodes(r)
  {
    var loop := r.path[Position(r.path, r.next)..];
    assert loop[0] == r.next;
    loop + [r.next]
  }

  lemma LoopIdsAreLinked(parent: ParentMap, r: LoopReport)
    requires Genuine(parent, r)
    ensures ParentChain(parent, LoopIds(r))
  {
    var at, ids := Position(r.path, r.next), LoopIds(r);
    forall k | 0 <= k < |ids| - 1 ensures ids[k] in parent && parent[ids[k]] == ids[k + 1] {
      assert ids[k] == r.path[at + k];
      if k + 1 < |ids| - 1 { assert ids[k + 1] == r.path[at + k + 1]; }
    }
  }

  /** Where the ids of a chain of recorded links are declared. */
  lemma ChainIsAWalk(epic: Option<Epic>, items: seq<Item>, ids: seq<string>) returns (q: seq<nat>)
    requires UniqueIds(epic, items) && |ids| >= 2 && ids[0] == ids[|ids| - 1]
    requires ParentChain(Links(epic, items, |items|), ids)
    ensures |q| == |ids| && ParentCycle(items, q) && IdsOf(items, q) == ids
  {
    forall k | 0 <= k < |ids| ensures Declared(items, ids[k]) {
      if k < |ids| - 1 { RecordedIsAnEdge(epic, items, ids[k]); } else { RecordedIsAnEdge(epic, items, ids[0]); }
    }
    q := seq(|ids|, k requires 0 <= k < |ids| && Declared(items, ids[k]) => LastIndex(items, ids[k]));
    forall k | 0 <= k < |q| - 1 ensures ParentEdge(items, q[k], q[k + 1]) {
      RecordedIsAnEdge(epic, items, ids[k]);
    }
  }

  /** The walk goes round the loop of the report and meets nothing else. */
  ghost predicate GoesRound(items: seq<Item>, r: LoopReport, q: seq<nat>) {
    && ParentCycle(items, q)
    && forall u :: u in IdsOf(items, q) <==> u in LoopNodes(r)
  }

  /** Every report is of a closed walk of items. */
  lemma ReportIsAWalk(epic: Option<Epic>, items: seq<Item>, r: LoopReport) returns (q: seq<nat>)
    requires UniqueIds(epic, items) && Genuine(Links(epic, items, |items|), r)
    ensures GoesRound(items, r, q)
  {
    LoopIdsAreLinked(Links(epic, items, |items|), r);
    q := ChainIsAWalk(epic, items, LoopIds(r));
  }

  /** Without self parents and cycles in the recorded links, no items form a parent loop. */
  lemma UnrecordedIsNoLoop(epic: Option<Epic>, items: seq<Item>)
    requires UniqueIds(epic, items) && NoSelfParent(items)
    requires forall u :: !OnCycle(Links(epic, items, |items|), u)
    ensures !HasParentLoop(items)
  {
    forall q | ParentCycle(items, q) ensures false {
      assert ParentEdge(items, q[0], q[0 + 1]);
      WalkIsOnCycle(epic, items, q);
    }
  }

  /** A walk of items is accounted for: its first item is reported as its own parent, or one report holds it whole. */
  ghost predicate Reported(items: seq<Item>, faults: seq<PlanFault>, loops: seq<LoopReport>, q: seq<nat>)
    requires ParentCycle(items, q)
  {
    assert ParentEdge(items, q[0], q[0 + 1]);
    SelfParent(items[q[0]].id) in faults || exists r <- loops :: Holds(items, r, q)
  }

  ghost predicate DuplicateFault(epic: Option<Epic>, items: seq<Item>, f: PlanFault) {
    f.DuplicateTempId? && exists i :: 0 <= i < |items| && Repeated(epic, items, i) && f.id == items[i].id
  }

  ghost predicate ParentFault(epic: Option<Epic>, items: seq<Item>, f: PlanFault) {
    exists i :: 0 <= i < |items| && ParentFaultOf(epic, items, items[i], f)
  }

  ghost predicate KeyFault(epic: Option<Epic>, f: PlanFault) {
    && f.BadExistingKey? && !ExistingKeyOk(epic)
    && f.key == TrimSpace(epic.value.existingKey.value)
  }

  /** What a complaint of the structural check must be about. */
  ghost predicate FaultOf(epic: Option<Epic>, items: seq<Item>, loops: seq<LoopReport>, f: PlanFault) {
    || DuplicateFault(epic, items, f)
    || ParentFault(epic, items, f)
    || (f.LoopingChain? && f.report in loops)
    || KeyFault(epic, f)
  }

  /** With unique ids, reports and closed walks of items correspond. */
  ghost predicate ReportsTheLoops(items: seq<Item>, faults: seq<PlanFault>, loops: seq<LoopReport>) {
    && (forall q :: ParentCycle(items, q) ==> Reported(items, faults, loops, q))
    && forall r <- loops :: exists q :: GoesRound(items, r, q)
  }

  lemma LoopsAreReported(epic: Option<Epic>, items: seq<Item>, faults: seq<PlanFault>, loops: seq<LoopReport>)
    requires UniqueIds(epic, items)
    requires forall f :: f in faults <==> FaultOf(epic, items, loops, f)
    requires ReportsFit(Links(epic, items, |items|), loops)
    ensures ReportsTheLoops(items, faults, loops)
  {
    forall q | ParentCycle(items, q) ensures Reported(items, faults, loops, q) {
      if ParentEdge(items, q[0], q[0]) {
        assert ParentFaultOf(epic, items, items[q[0]], SelfParent(items[q[0]].id));
        assert FaultOf(epic, items, loops, SelfParent(items[q[0]].id));
      } else {
        WalkIsReported(epic, items, q, loops);
      }
    }
    forall r | r in loops ensures exists q :: GoesRound(items, r, q) {
      var q := ReportIsAWalk(epic, items, r);
    }
  }

  lemma LoopsDecide(epic: Option<Epic>, items: seq<Item>, loops: seq<LoopReport>)
    requires UniqueIds(epic, items) && NoSelfParent(items)
    requires ReportsFit(Links(epic, items, |items|), loops)
    ensures loops == [] <==> !HasParentLoop(items)
  {
    if loops == [] {
      forall u ensures !OnCycle(Links(epic, items, |items|), u) {
        assert !InAReport(loops, u);
      }
      UnrecordedIsNoLoop(epic, items);
    } else {
      var q := ReportIsAWalk(epic, items, loops[0]);
      assert ParentCycle(items, q);
    }
  }

  lemma SilentIffSound(epic: Option<Epic>, items: seq<Item>, loops: seq<LoopReport>, unique: bool, resolved: bool, keyOk: bool)
    requires unique <==> UniqueIds(epic, items)
    requires resolved <==> NoSelfParent(items) && NoDanglingParent(epic, items)
    requires ReportsFit(Links(epic, items, |items|), loops)
    requires keyOk <==> ExistingKeyOk(epic)
    ensures unique && resolved && loops == [] && keyOk <==> StructureOk(epic, items)
  {
    if unique && resolved { LoopsDecide(epic, items, loops); }
  }

  /** What the four lists of complaints hold together. */
  lemma FaultsTogether(epic: Option<Epic>, items: seq<Item>, loops: seq<LoopReport>,
                       duplicates: seq<PlanFault>, parents: seq<PlanFault>, looping: seq<PlanFault>, key: seq<PlanFault>)
    requires forall f :: f in duplicates <==> DuplicateFault(epic, items, f)
    requires forall f :: f in parents <==> ParentFault(epic, items, f)
    requires forall f :: f in looping <==> f.LoopingChain? && f.report in loops
    requires forall f :: f in key <==> KeyFault(epic, f)
    ensures forall f :: f in duplicates + parents + looping + key <==> FaultOf(epic, items, loops, f)
  {
  }

  /** `checkPlanStructure`: silent exactly on a sound structure; reports every duplicate, self and dangling
      parent and nothing else, and each parent loop exactly once. */
  method CheckPlanStructure(epic: Option<Epic>, items: seq<Item>)
    returns (faults: seq<PlanFault>, loops: seq<LoopReport>)
    ensures faults == [] <==> StructureOk(epic, items)
    ensures forall f :: f in faults <==> FaultOf(epic, items, loops, f)
    ensures ReportsFit(Links(epic, items, |items|), loops)
    ensures forall i, j :: 0 <= i < j < |loops| ==> LoopNodes(loops[i]) !! LoopNodes(loops[j])
    ensures UniqueIds(epic, items) ==> ReportsTheLoops(items, faults, loops)
  {
    var seen, duplicates := CheckDuplicates(epic, items);
    var parent, parentFaults := CheckParents(epic, items, seen);
    LinksAreDeclared(epic, items, |items|);
    var ids := ItemIds(items);
    loops := FindLoops(ids, parent);
    var loopFaults := ReportLoops(loops);
    var keyFaults := CheckExistingKey(epic);
    faults := duplicates + parentFaults + loopFaults + keyFaults;
    FaultsTogether(epic, items, loops, duplicates, parentFaults, loopFaults, keyFaults);
    LoopsFit(parent, loops);
    SilentIffSound(epic, items, loops, duplicates == [], parentFaults == [], keyFaults == []);
    if duplicates == [] { LoopsAreReported(epic, items, faults, loops); }
  }

  method ItemIds(items: seq<Item>) returns (ids: seq<string>)
    ensures |ids| == |items| && forall i :: 0 <= i < |items| ==> ids[i] == items[i].id
    ensures forall id :: id in ids <==> Declared(items, id)
  {
    ids := seq(|items|, i requires 0 <= i < |items| => items[i].id);
    forall id | Declared(items, id) ensures id in ids {
      var i :| 0 <= i < |items| && items[i].id == id;
      assert ids[i] == id;
    }
  }

  method ReportLoops(loops: seq<LoopReport>) returns (faults: seq<PlanFault>)
    ensures |faults| == |loops| && forall i :: 0 <= i < |loops| ==> faults[i] == LoopingChain(loops[i])
    ensures forall f :: f in faults <==> f.LoopingChain? && f.report in loops
  {
    faults := seq(|loops|, i requires 0 <= i < |loops| => LoopingChain(loops[i]));
    forall f: PlanFault | f.LoopingChain? && f.report in loops ensures f in faults {
      var i :| 0 <= i < |loops| && loops[i] == f.report;
      assert faults[i] == f;
    }
  }

  method CheckExistingKey(epic: Option<Epic>) returns (faults: seq<PlanFault>)
    ensures faults == [] <==> ExistingKeyOk(epic)
    ensures faults == [] <==> (epic.None? || epic.value.existingKey.None? || Blank(epic.value.existingKey.value)
                               || JiraKey(TrimSpace(epic.value.existingKey.value)))
    ensures forall f :: f in faults <==> KeyFault(epic, f)
  {
    faults := [];
    if epic.Some? && epic.value.existingKey.Some? {
      var key := TrimSpace(epic.value.existingKey.value);
      TrimSpaceCuts(epic.value.existingKey.value);
      if key != "" && !JiraKey(key) {
        faults := [BadExistingKey(key)];
      }
    }
  }

  // ---------------------------------------------------------------- hierarchy_legal (plan mode)

  datatype TypeFault = SubTaskWithoutParent | SubTaskUnderEpic | SubTaskUnderSubTask | SubTaskUnderNonL0 | L0UnderItem

  /** `checkPlanHierarchyLegal`, the items by id given as a map. */
  function CheckPlanHierarchy(it: Item, epicId: string, byId: map<string, Item>): Option<TypeFault> {
    var isSub := it.kind.SubTask?;
    if it.parent.None? || it.parent.value == "" then
      if isSub then Some(SubTaskWithoutParent) else None
    else
      var pid := it.parent.value;
      var isEpicParent := epicId != "" && pid == epicId;
      if !isEpicParent && pid !in byId then None
      else if isSub then
        if isEpicParent then Some(SubTaskUnderEpic)
        else if byId[pid].kind.SubTask? then Some(SubTaskUnderSubTask)
        else if !IsL0(byId[pid].kind) then Some(SubTaskUnderNonL0)
        else None
      else if !isEpicParent then Some(L0UnderItem)
      else None
  }

  /** What each fault of the type rules says; a parent that resolves to nothing is not this check's concern. */
  lemma TypeFaultMeans(it: Item, epicId: string, byId: map<string, Item>)
    ensures var r, p := CheckPlanHierarchy(it, epicId, byId), ParentId(it);
      && (r == Some(SubTaskWithoutParent) <==> it.kind == SubTask && p == None)
      && (p.Some? ==>
            var epic, item := epicId != "" && p.value == epicId, if p.value in byId then Some(byId[p.value]) else None;
            && (r == Some(SubTaskUnderEpic) <==> it.kind == SubTask && epic)
            && (r == Some(SubTaskUnderSubTask) <==> it.kind == SubTask && !epic && item.Some? && item.value.kind == SubTask)
            && (r == Some(SubTaskUnderNonL0) <==> it.kind == SubTask && !epic && item.Some? && item.value.kind.Other?)
            && (r == Some(L0UnderItem) <==> it.kind != SubTask && !epic && item.Some?))
  {
  }

  function ById(items: seq<Item>): map<string, Item> {
    map i | 0 <= i < |items| && LastIndex(items, items[i].id) == i :: items[i].id := items[i]
  }

  lemma ByIdHolds(items: seq<Item>)
    ensures forall id :: id in ById(items) <==> Declared(items, id)
    ensures forall id :: id in ById(items) ==> ById(items)[id] == items[LastIndex(items, id)]
  {
    forall id | Declared(items, id) ensures id in ById(items) {
      var i := LastIndex(items, id);
      assert LastIndex(items, items[i].id) == i;
    }
  }

  ghost predicate TypeLegal(epic: Option<Epic>, items: seq<Item>, it: Item) {
    CheckPlanHierarchy(it, EpicId(epic), ById(items)).None?
  }
}
