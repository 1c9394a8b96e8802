/** The plan gate: eight checks per item, one verdict per id. */
module Precheck {
  import opened Wrappers
  import opened Text
  import opened Tree
  import opened PlanModel
  import opened Zones
  import opened Anchors
  import opened PlanStructure
  import SkeletonGate

  datatype GateComplaint =
    | Structure(fault: PlanFault)
    | Hierarchy(typeFault: TypeFault)
    | Fields(field: FieldFault)
    | RepoNotLegal(repo: string)
    | AnchorFault(anchor: AnchorComplaint)
    | AnchorShared(shared: SharedAnchor)
    | Routing(routing: RoutingComplaint)
    | OverCap(leaf: bool)
    | SkeletonFault(skeletonFault: SkeletonGate.Complaint)
    | CyclePath(path: seq<string>)

  datatype FieldFault = EmptyWhy | EmptyDefinitionOfDone | EmptyProse | NoCriteria | EmptyCriterion(index: nat)

  datatype CheckResult = CheckResult(pass: bool, complaints: seq<GateComplaint>)
  datatype Verdict = Verdict(
    ok: bool, checks: map<string, CheckResult>, hardFail: bool, complaints: seq<GateComplaint>)

  datatype Thresholds = Thresholds(knownRepos: seq<string>, lockstepMarker: string, maxLeafCostUsd: real)

  const PLAN_CHECK_ORDER: seq<string> := [
    "plan_structure", "hierarchy_legal", "fields_present", "single_repo",
    "anchors_exist", "anchor_consistency", "zone_routing", "sizing_bounds"]

  // ---------------------------------------------------------------- verdicts

  /** A check missing from the map reads as Go's zero value: failed, without complaints. */
  function ResultOf(results: map<string, CheckResult>, name: string): CheckResult {
    if name in results then results[name] else CheckResult(false, [])
  }

  function AllComplaints(order: seq<string>, results: map<string, CheckResult>): seq<GateComplaint> {
    if order == [] then []
    else AllComplaints(order[..|order| - 1], results) + ResultOf(results, order[|order| - 1]).complaints
  }

  lemma {:induction false} ComplaintsJoin(a: seq<string>, b: seq<string>, results: map<string, CheckResult>)
    ensures AllComplaints(a + b, results) == AllComplaints(a, results) + AllComplaints(b, results)
  {
    if b == [] {
      assert a + b == a;
    } else {
      var front, last := b[..|b| - 1], b[|b| - 1];
      ComplaintsJoin(a, front, results);
      assert (a + b)[..|a + b| - 1] == a + front && (a + b)[|a + b| - 1] == last;
      Associates(AllComplaints(a, results), AllComplaints(front, results), ResultOf(results, last).complaints);
    }
  }

  /** A check's complaints stand in the verdict as the check made them, behind those of the checks before it. */
  lemma ComplaintsInOrder(order: seq<string>, results: map<string, CheckResult>, k: nat)
    requires k < |order|
    ensures AllComplaints(order, results) ==
              AllComplaints(order[..k], results)
              + ((if order[k] in results then results[order[k]].complaints else [])
                 + AllComplaints(order[k + 1..], results))
  {
    var rest := [order[k]] + order[k + 1..];
    assert order == order[..k] + rest;
    ComplaintsJoin(order[..k], rest, results);
    ComplaintsJoin([order[k]], order[k + 1..], results);
    assert [order[k]][..0] == [];
  }

  lemma {:induction false} ComplaintsOfTheChecks(order: seq<string>, results: map<string, CheckResult>, c: GateComplaint)
    ensures c in AllComplaints(order, results) <==>
              exists name <- order :: name in results && c in results[name].complaints
  {
    if order != [] {
      var front, last := order[..|order| - 1], order[|order| - 1];
      ComplaintsOfTheChecks(front, results, c);
      assert order == front + [last];
    }
  }

  /** `buildVerdict`: OK exactly when every named check passes; complaints in check order. */
  method BuildVerdict(order: seq<string>, results: map<string, CheckResult>) returns (v: Verdict)
    ensures v.ok <==> forall name <- order :: ResultOf(results, name).pass
    ensures v.ok <==> forall name <- order :: name in results && results[name].pass
    ensures v.hardFail == !v.ok && v.checks == results
    ensures v.complaints == AllComplaints(order, results)
    ensures forall c :: c in v.complaints <==> exists name <- order :: name in results && c in results[name].complaints
  {
    forall c ensures c in AllComplaints(order, results) <==>
                       exists name <- order :: name in results && c in results[name].complaints
    {
      ComplaintsOfTheChecks(order, results, c);
    }
    var hardFail := false;
    var complaints := [];
    for i := 0 to |order|
      invariant hardFail <==> exists k :: 0 <= k < i && !ResultOf(results, order[k]).pass
      invariant complaints == AllComplaints(order[..i], results)
    {
      assert order[..i + 1][..i] == order[..i];
      var r := ResultOf(results, order[i]);
      if !r.pass {
        hardFail := true;
      }
      complaints := complaints + r.complaints;
    }
    assert order[..|order|] == order;
    v := Verdict(!hardFail, results, hardFail, complaints);
  }

  // ---------------------------------------------------------------- the plain checks

  ghost predicate FieldsPresent(it: PlanItem) {
    && !Blank(it.why) && !Blank(it.definitionOfDone) && !Blank(it.prose)
    && it.acceptance != [] && forall i :: 0 <= i < |it.acceptance| ==> !Blank(it.acceptance[i])
  }

  ghost predicate Missing(it: PlanItem, f: FieldFault) {
    match f
    case EmptyWhy => Blank(it.why)
    case EmptyDefinitionOfDone => Blank(it.definitionOfDone)
    case EmptyProse => Blank(it.prose)
    case NoCriteria => it.acceptance == []
    case EmptyCriterion(i) => i < |it.acceptance| && Blank(it.acceptance[i])
  }

  /** One complaint per blank acceptance criterion. */
  method BlankCriteria(acceptance: seq<string>) returns (complaints: seq<GateComplaint>)
    ensures forall c :: c in complaints <==>
              c.Fields? && c.field.EmptyCriterion? && c.field.index < |acceptance| && Blank(acceptance[c.field.index])
  {
    complaints := [];
    for i := 0 to |acceptance|
      invariant forall c :: c in complaints <==>
                  c.Fields? && c.field.EmptyCriterion? && c.field.index < i && Blank(acceptance[c.field.index])
    {
      TrimSpaceCuts(acceptance[i]);
      if TrimSpace(acceptance[i]) == "" {
        complaints := complaints + [Fields(EmptyCriterion(i))];
      }
    }
  }

  /** Pushes one complaint if the field lacks content. */
  method Require(complaints: seq<GateComplaint>, lacking: bool, f: FieldFault) returns (r: seq<GateComplaint>)
    ensures forall c :: c in r <==> c in complaints || (lacking && c == Fields(f))
  {
    r := if lacking then complaints + [Fields(f)] else complaints;
  }

  lemma NothingMissing(it: PlanItem)
    ensures FieldsPresent(it) <==> forall f :: !Missing(it, f)
  {
    if forall f :: !Missing(it, f) {
      assert !Missing(it, EmptyWhy) && !Missing(it, EmptyDefinitionOfDone) && !Missing(it, EmptyProse);
      assert !Missing(it, NoCriteria);
      forall i | 0 <= i < |it.acceptance| ensures !Blank(it.acceptance[i]) {
        assert !Missing(it, EmptyCriterion(i));
      }
    }
    if FieldsPresent(it) {
      forall f ensures !Missing(it, f) {
        match f
        case EmptyCriterion(i) => assert i < |it.acceptance| ==> !Blank(it.acceptance[i]);
        case _ =>
      }
    }
  }

  method CheckFieldsPresent(it: PlanItem) returns (r: CheckResult)
    ensures r.pass <==> FieldsPresent(it)
    ensures forall c :: c in r.complaints <==> c.Fields? && Missing(it, c.field)
  {
    TrimSpaceCuts(it.why);
    TrimSpaceCuts(it.definitionOfDone);
    TrimSpaceCuts(it.prose);
    var complaints := Require([], TrimSpace(it.why) == "", EmptyWhy);
    complaints := Require(complaints, TrimSpace(it.definitionOfDone) == "", EmptyDefinitionOfDone);
    complaints := Require(complaints, TrimSpace(it.prose) == "", EmptyProse);
    complaints := Require(complaints, |it.acceptance| == 0, NoCriteria);
    var criteria := BlankCriteria(it.acceptance);
    complaints := complaints + criteria;
    r := CheckResult(|complaints| == 0, complaints);
    FieldsPassIff(it, complaints);
  }

  lemma FieldsPassIff(it: PlanItem, complaints: seq<GateComplaint>)
    requires forall c :: c in complaints <==> c.Fields? && Missing(it, c.field)
    ensures complaints == [] <==> FieldsPresent(it)
  {
    NothingMissing(it);
    if complaints != [] {
      assert complaints[0] in complaints;
    }
    if f :| Missing(it, f) {
      assert Fields(f) in complaints;
    }
  }

  ghost predicate SingleRepo(th: Thresholds, it: PlanItem) {
    if it.shape.repo == th.lockstepMarker then it.tier1 == NeedsHuman else it.shape.repo in th.knownRepos
  }

  method CheckSingleRepo(th: Thresholds, it: PlanItem) returns (r: CheckResult)
    ensures r.pass <==> SingleRepo(th, it)
    ensures r.complaints == if r.pass then [] else [RepoNotLegal(it.shape.repo)]
  {
    if it.shape.repo == th.lockstepMarker {
      var legal := it.tier1 == NeedsHuman;
      return CheckResult(legal, if legal then [] else [RepoNotLegal(it.shape.repo)]);
    }
    for i := 0 to |th.knownRepos|
      invariant it.shape.repo !in th.knownRepos[..i]
    {
      if th.knownRepos[i] == it.shape.repo {
        return CheckResult(true, []);
      }
    }
    assert th.knownRepos[..|th.knownRepos|] == th.knownRepos;
    return CheckResult(false, [RepoNotLegal(it.shape.repo)]);
  }

  /** Ids some item other than their owner names as its parent. */
  predicate IsParent(items: seq<PlanItem>, id: string) {
    exists i :: 0 <= i < |items| && ParentId(items[i].shape) == Some(id) && items[i].shape.id != id
  }

  function CheckSizingBounds(th: Thresholds, it: PlanItem, isLeaf: bool): CheckResult {
    CheckResult(true, if it.predictedCostUsd > th.maxLeafCostUsd then [OverCap(isLeaf)] else [])
  }

  // ---------------------------------------------------------------- PrecheckPlan

  /** What the checks read besides the plan itself. */
  datatype Env = Env(th: Thresholds, coupling: Loaded, git: Git, lower: CaseFold)

  /** The eight checks on the item at index `i`, each by its own rule, with git asked afresh. */
  ghost predicate ItemPasses(env: Env, p: Plan, i: nat)
    requires i < |p.items|
  {
    var it := p.items[i];
    && StructureOk(p.epic, Shapes(p.items))
    && TypeLegal(p.epic, Shapes(p.items), it.shape)
    && FieldsPresent(it)
    && SingleRepo(env.th, it)
    && AllAnchorsResolve(env.git, it.anchors)
    && env.coupling.Zones? && RoutingRules(env.lower, env.coupling.zones, it)
  }

  /** Eight results filed under the eight check names. */
  function FileByName<T>(structure: T, hierarchy: T, fields: T, repo: T, anchors: T, consistency: T, zones: T, sizing: T): map<string, T> {
    map[
      "plan_structure" := structure,
      "hierarchy_legal" := hierarchy,
      "fields_present" := fields,
      "single_repo" := repo,
      "anchors_exist" := anchors,
      "anchor_consistency" := consistency,
      "zone_routing" := zones,
      "sizing_bounds" := sizing]
  }

  lemma FiledUnderTheirNames<T>(a: T, b: T, c: T, d: T, e: T, f: T, g: T, h: T)
    ensures var m := FileByName(a, b, c, d, e, f, g, h);
      && m.Keys == (set name | name in PLAN_CHECK_ORDER)
      && forall k :: 0 <= k < |PLAN_CHECK_ORDER| ==> m[PLAN_CHECK_ORDER[k]] == [a, b, c, d, e, f, g, h][k]
  {
    CheckNamesDiffer();
  }

  /** By check name, what each of the eight checks must say about item `i`. */
  ghost function Expected(env: Env, p: Plan, i: nat): map<string, bool>
    requires i < |p.items|
  {
    var it := p.items[i];
    FileByName(
      StructureOk(p.epic, Shapes(p.items)),
      TypeLegal(p.epic, Shapes(p.items), it.shape),
      FieldsPresent(it),
      SingleRepo(env.th, it),
      AllAnchorsResolve(env.git, it.anchors),
      true,
      env.coupling.Zones? && RoutingRules(env.lower, env.coupling.zones, it),
      true)
  }

  ghost predicate AllTrue(expected: map<string, bool>) {
    forall name <- expected :: expected[name]
  }

  function WrapAll<A>(f: A -> GateComplaint, xs: seq<A>): (r: seq<GateComplaint>)
    ensures |r| == |xs| && forall i :: 0 <= i < |xs| ==> r[i] == f(xs[i])
  {
    seq(|xs|, i requires 0 <= i < |xs| => f(xs[i]))
  }

  /** The names under which a verdict files its checks are the eight of the order, all different. */
  lemma CheckNamesDiffer()
    ensures forall i, j :: 0 <= i < j < |PLAN_CHECK_ORDER| ==> PLAN_CHECK_ORDER[i] != PLAN_CHECK_ORDER[j]
  {
    assert "plan_structure"[0] != "fields_present"[0];
    assert "anchors_exist"[0] != "sizing_bounds"[0];
    assert |"hierarchy_legal"| == 15 && |"single_repo"| == 11 && |"anchor_consistency"| == 18 && |"zone_routing"| == 12;
  }

  /** The eight results of one item, before they are filed by name. */
  datatype ItemResults = ItemResults(
    structure: CheckResult, hierarchy: CheckResult, fields: CheckResult, repo: CheckResult,
    anchors: CheckResult, consistency: CheckResult, zones: CheckResult, sizing: CheckResult)
  {
    function Filed(): map<string, CheckResult> {
      FileByName(structure, hierarchy, fields, repo, anchors, consistency, zones, sizing)
    }
  }

  /** Each of the eight results says what its own rule says. */
  ghost predicate Truthful(env: Env, p: Plan, i: nat, r: ItemResults)
    requires i < |p.items|
  {
    var it := p.items[i];
    && (r.structure.pass == StructureOk(p.epic, Shapes(p.items)))
    && (r.hierarchy.pass <==> TypeLegal(p.epic, Shapes(p.items), it.shape))
    && (r.fields.pass <==> FieldsPresent(it))
    && (r.repo.pass <==> SingleRepo(env.th, it))
    && (r.anchors.pass <==> AllAnchorsResolve(env.git, it.anchors))
    && r.consistency.pass
    && (r.zones.pass <==> env.coupling.Zones? && RoutingRules(env.lower, env.coupling.zones, it))
    && r.sizing.pass
  }

  lemma FiledAsExpected(env: Env, p: Plan, i: nat, r: ItemResults)
    requires i < |p.items| && Truthful(env, p, i, r)
    ensures r.Filed().Keys == Expected(env, p, i).Keys == (set name | name in PLAN_CHECK_ORDER)
    ensures forall name <- r.Filed() :: r.Filed()[name].pass == Expected(env, p, i)[name]
  {
    var it := p.items[i];
    FilingsAgree(r.structure, r.hierarchy, r.fields, r.repo, r.anchors, r.consistency, r.zones, r.sizing);
  }

  lemma PassedIsInOrder(a: CheckResult, b: CheckResult, c: CheckResult, d: CheckResult,
                        e: CheckResult, f: CheckResult, g: CheckResult, h: CheckResult, k: nat)
    requires k < 8
    ensures [a, b, c, d, e, f, g, h][k].pass == [a.pass, b.pass, c.pass, d.pass, e.pass, f.pass, g.pass, h.pass][k]
  {
  }

  /** Two filings whose values agree place by place agree name by name. */
  lemma PlacesAgree(m: map<string, CheckResult>, n: map<string, bool>, order: seq<string>, x: seq<CheckResult>, y: seq<bool>)
    requires m.Keys == n.Keys == (set name | name in order) && |order| == |x| == |y|
    requires forall k :: 0 <= k < |order| ==> m[order[k]] == x[k] && n[order[k]] == y[k] && x[k].pass == y[k]
    ensures forall name <- m :: m[name].pass == n[name]
  {
  }

  lemma FilingsAgree(a: CheckResult, b: CheckResult, c: CheckResult, d: CheckResult,
                     e: CheckResult, f: CheckResult, g: CheckResult, h: CheckResult)
    ensures var m := FileByName(a, b, c, d, e, f, g, h);
            var n := FileByName(a.pass, b.pass, c.pass, d.pass, e.pass, f.pass, g.pass, h.pass);
      && m.Keys == n.Keys == (set name | name in PLAN_CHECK_ORDER)
      && forall name <- m :: m[name].pass == n[name]
  {
    FiledUnderTheirNames(a, b, c, d, e, f, g, h);
    FiledUnderTheirNames(a.pass, b.pass, c.pass, d.pass, e.pass, f.pass, g.pass, h.pass);
    var m := FileByName(a, b, c, d, e, f, g, h);
    var n := FileByName(a.pass, b.pass, c.pass, d.pass, e.pass, f.pass, g.pass, h.pass);
    var x, y := [a, b, c, d, e, f, g, h], [a.pass, b.pass, c.pass, d.pass, e.pass, f.pass, g.pass, h.pass];
    forall k | 0 <= k < |PLAN_CHECK_ORDER| ensures x[k].pass == y[k] {
      PassedIsInOrder(a, b, c, d, e, f, g, h, k);
    }
    PlacesAgree(m, n, PLAN_CHECK_ORDER, x, y);
  }

  lemma ExpectedAllTrue(env: Env, p: Plan, i: nat)
    requires i < |p.items|
    ensures AllTrue(Expected(env, p, i)) <==> ItemPasses(env, p, i)
  {
    var it := p.items[i];
    AllFiledTrue(
      StructureOk(p.epic, Shapes(p.items)), TypeLegal(p.epic, Shapes(p.items), it.shape), FieldsPresent(it),
      SingleRepo(env.th, it), AllAnchorsResolve(env.git, it.anchors), true,
      env.coupling.Zones? && RoutingRules(env.lower, env.coupling.zones, it), true);
  }

  lemma AllFiledTrue(a: bool, b: bool, c: bool, d: bool, e: bool, f: bool, g: bool, h: bool)
    ensures AllTrue(FileByName(a, b, c, d, e, f, g, h)) <==> a && b && c && d && e && f && g && h
  {
    FiledUnderTheirNames(a, b, c, d, e, f, g, h);
    AllTrueInOrder(FileByName(a, b, c, d, e, f, g, h), PLAN_CHECK_ORDER, [a, b, c, d, e, f, g, h]);
    EightTrue(a, b, c, d, e, f, g, h);
  }

  lemma EightTrue(a: bool, b: bool, c: bool, d: bool, e: bool, f: bool, g: bool, h: bool)
    ensures var x := [a, b, c, d, e, f, g, h];
            (forall k :: 0 <= k < |x| ==> x[k]) <==> a && b && c && d && e && f && g && h
  {
    var x := [a, b, c, d, e, f, g, h];
    assert x[0] == a && x[1] == b && x[2] == c && x[3] == d && x[4] == e && x[5] == f && x[6] == g && x[7] == h;
  }

  lemma AllTrueInOrder(m: map<string, bool>, order: seq<string>, x: seq<bool>)
    requires m.Keys == (set name | name in order) && |order| == |x|
    requires forall k :: 0 <= k < |order| ==> m[order[k]] == x[k]
    ensures AllTrue(m) <==> forall k :: 0 <= k < |x| ==> x[k]
  {
    if AllTrue(m) {
      forall k | 0 <= k < |x| ensures x[k] { assert order[k] in m; }
    }
  }

  /** Beside the pass marks, each result complains about exactly what is wrong. */
  ghost predicate Explained(env: Env, p: Plan, i: nat, byId: map<string, Item>, r: ItemResults)
    requires i < |p.items|
  {
    var it := p.items[i];
    && (forall c :: c in r.hierarchy.complaints <==>
          c.Hierarchy? && CheckPlanHierarchy(it.shape, EpicId(p.epic), byId) == Some(c.typeFault))
    && (forall c :: c in r.fields.complaints <==> c.Fields? && Missing(it, c.field))
    && (r.repo.complaints == if r.repo.pass then [] else [RepoNotLegal(it.shape.repo)])
    && r.anchors.complaints == AnchorFaults(AnchorVerdicts(env.git, env.lower, it.anchors))
    && (forall c :: c in r.consistency.complaints <==> c.AnchorShared? && Shares(p.items, it, c.shared))
    && (forall c :: c in r.zones.complaints <==>
          c.Routing? && RoutingFault(env.lower, it, env.coupling, |p.items| > 1, c.routing))
    && r.sizing == CheckSizingBounds(env.th, it, !IsParent(p.items, it.shape.id))
    && SizingExplained(env.th, p.items, it, r.sizing)
  }

  /** A cost above the cap is noted, as a leaf's or a parent's; nothing else is. */
  ghost predicate SizingExplained(th: Thresholds, items: seq<PlanItem>, it: PlanItem, r: CheckResult) {
    forall c :: c in r.complaints <==>
      it.predictedCostUsd > th.maxLeafCostUsd && c.OverCap? && (c.leaf <==> NobodysParent(items, it.shape.id))
  }

  lemma SizingIsExplained(th: Thresholds, items: seq<PlanItem>, it: PlanItem)
    ensures SizingExplained(th, items, it, CheckSizingBounds(th, it, !IsParent(items, it.shape.id)))
  {
    LeafIsNobodysParent(items, it.shape.id);
  }

  /** No other item names `id` as its parent. */
  ghost predicate NobodysParent(items: seq<PlanItem>, id: string) {
    id == "" || forall k <- items :: k.shape.parent == Some(id) ==> k.shape.id == id
  }

  lemma LeafIsNobodysParent(items: seq<PlanItem>, id: string)
    ensures IsParent(items, id) <==> !NobodysParent(items, id)
  {
    if IsParent(items, id) {
      var i :| 0 <= i < |items| && ParentId(items[i].shape) == Some(id) && items[i].shape.id != id;
      assert items[i] in items;
    }
    if !NobodysParent(items, id) {
      var k :| k in items && k.shape.parent == Some(id) && k.shape.id != id;
      var i :| 0 <= i < |items| && items[i] == k;
      assert ParentId(items[i].shape) == Some(id);
    }
  }

  lemma SharedWrapped(xs: seq<SharedAnchor>, c: GateComplaint)
    ensures c in WrapAll(x => AnchorShared(x), xs) <==> c.AnchorShared? && c.shared in xs
  {
    var r := WrapAll(x => AnchorShared(x), xs);
    if c.AnchorShared? && c.shared in xs {
      var k :| 0 <= k < |xs| && xs[k] == c.shared;
      assert r[k] == c;
    }
  }

  lemma RoutingWrapped(xs: seq<RoutingComplaint>, c: GateComplaint)
    ensures c in WrapAll(x => Routing(x), xs) <==> c.Routing? && c.routing in xs
  {
    var r := WrapAll(x => Routing(x), xs);
    if c.Routing? && c.routing in xs {
      var k :| 0 <= k < |xs| && xs[k] == c.routing;
      assert r[k] == c;
    }
  }

  method HierarchyResult(p: Plan, it: PlanItem, byId: map<string, Item>) returns (r: CheckResult)
    requires byId == ById(Shapes(p.items))
    ensures r.pass <==> TypeLegal(p.epic, Shapes(p.items), it.shape)
    ensures forall c :: c in r.complaints <==>
              c.Hierarchy? && CheckPlanHierarchy(it.shape, EpicId(p.epic), byId) == Some(c.typeFault)
  {
    var typeFault := CheckPlanHierarchy(it.shape, EpicId(p.epic), byId);
    r := CheckResult(typeFault.None?, if typeFault.Some? then [Hierarchy(typeFault.value)] else []);
  }

  method AnchorsResult(env: Env, it: PlanItem, cache: AnchorCache) returns (r: CheckResult)
    requires cache.Valid() && cache.git == env.git
    modifies cache
    ensures cache.Valid()
    ensures r.pass <==> AllAnchorsResolve(env.git, it.anchors)
    ensures r.complaints == AnchorFaults(AnchorVerdicts(env.git, env.lower, it.anchors))
  {
    var pass, faults := CheckAnchorsExist(it, env.lower, cache);
    r := CheckResult(pass, AnchorFaults(faults));
  }

  method ConsistencyResult(items: seq<PlanItem>, it: PlanItem, citers: map<string, seq<string>>) returns (r: CheckResult)
    requires it in items
    requires IsIndex(citers, items)
    ensures r.pass
    ensures forall c :: c in r.complaints <==> c.AnchorShared? && Shares(items, it, c.shared)
  {
    var shared := CheckAnchorConsistency(items, it, citers);
    r := CheckResult(true, WrapAll(c => AnchorShared(c), shared));
    forall c ensures c in r.complaints <==> c.AnchorShared? && c.shared in shared {
      SharedWrapped(shared, c);
    }
  }

  method RoutingResult(env: Env, it: PlanItem, multiItem: bool) returns (r: CheckResult)
    ensures r.pass <==> env.coupling.Zones? && RoutingRules(env.lower, env.coupling.zones, it)
    ensures forall c :: c in r.complaints <==>
              c.Routing? && RoutingFault(env.lower, it, env.coupling, multiItem, c.routing)
  {
    var pass, routing := CheckZoneRouting(env.lower, it, env.coupling, multiItem);
    r := CheckResult(pass, WrapAll(c => Routing(c), routing));
    forall c ensures c in r.complaints <==> c.Routing? && c.routing in routing {
      RoutingWrapped(routing, c);
    }
  }

  /** The eight checks of one item; only the shared cache changes. */
  method CheckPlanItem(env: Env, p: Plan, i: nat, structure: CheckResult, byId: map<string, Item>,
                       citers: map<string, seq<string>>, cache: AnchorCache)
    returns (r: ItemResults)
    requires i < |p.items|
    requires structure.pass == StructureOk(p.epic, Shapes(p.items))
    requires byId == ById(Shapes(p.items))
    requires IsIndex(citers, p.items)
    requires cache.Valid() && cache.git == env.git
    modifies cache
    ensures cache.Valid()
    ensures Truthful(env, p, i, r)
    ensures r.structure == structure
    ensures Explained(env, p, i, byId, r)
  {
    var it := p.items[i];
    var hierarchy := HierarchyResult(p, it, byId);
    var fields := CheckFieldsPresent(it);
    var repo := CheckSingleRepo(env.th, it);
    var anchors := AnchorsResult(env, it, cache);
    var consistency := ConsistencyResult(p.items, it, citers);
    var routing := RoutingResult(env, it, |p.items| > 1);
    SizingIsExplained(env.th, p.items, it);
    r := ItemResults(
      structure,
      hierarchy,
      fields,
      repo,
      anchors,
      consistency,
      routing,
      CheckSizingBounds(env.th, it, !IsParent(p.items, it.shape.id)));
  }

  function AnchorFaults(cs: seq<AnchorComplaint>): seq<GateComplaint> {
    WrapAll(c => AnchorFault(c), cs)
  }

  /** `v` files each check under its name with the expected outcome, and is OK exactly when all are passes. */
  ghost predicate VerdictFor(expected: map<string, bool>, v: Verdict) {
    && v.checks.Keys == expected.Keys
    && (forall name <- expected :: v.checks[name].pass == expected[name])
    && (v.ok <==> AllTrue(expected))
    && v.hardFail == !v.ok
    && v.complaints == AllComplaints(PLAN_CHECK_ORDER, v.checks)
  }

  /** Item by item, the expected outcomes. */
  ghost function Outcomes(env: Env, p: Plan): (r: seq<map<string, bool>>)
    ensures |r| == |p.items|
  {
    seq(|p.items|, i requires 0 <= i < |p.items| => Expected(env, p, i))
  }

  method PrecheckItem(env: Env, p: Plan, i: nat, structure: CheckResult, byId: map<string, Item>,
                      citers: map<string, seq<string>>, cache: AnchorCache)
    returns (v: Verdict)
    requires i < |p.items|
    requires structure.pass == StructureOk(p.epic, Shapes(p.items))
    requires byId == ById(Shapes(p.items))
    requires IsIndex(citers, p.items)
    requires cache.Valid() && cache.git == env.git
    modifies cache
    ensures cache.Valid()
    ensures VerdictFor(Outcomes(env, p)[i], v)
  {
    var r := CheckPlanItem(env, p, i, structure, byId, citers, cache);
    FiledAsExpected(env, p, i, r);
    v := BuildVerdict(PLAN_CHECK_ORDER, r.Filed());
    VerdictIsFor(Outcomes(env, p)[i], v);
  }

  lemma VerdictIsFor(expected: map<string, bool>, v: Verdict)
    requires expected.Keys == v.checks.Keys == (set name | name in PLAN_CHECK_ORDER)
    requires forall name <- v.checks :: v.checks[name].pass == expected[name]
    requires v.ok <==> forall name <- PLAN_CHECK_ORDER :: ResultOf(v.checks, name).pass
    requires v.hardFail == !v.ok && v.complaints == AllComplaints(PLAN_CHECK_ORDER, v.checks)
    ensures VerdictFor(expected, v)
  {
    assert forall name :: name in PLAN_CHECK_ORDER <==> name in v.checks;
  }

  /** `PrecheckPlan`: the map holds, for every id, the verdict of the last item so called. No failure is
      masked by that: the map is all OK exactly when every item at every index passes every check. */
  method PrecheckPlan(env: Env, p: Plan) returns (out: map<string, Verdict>, cache: AnchorCache)
    requires ArgumentsAreNulFree(env.git)
    ensures HoldsVerdicts(Shapes(p.items), Outcomes(env, p), |p.items|, out)
    ensures (forall id <- out :: out[id].ok) <==> forall i :: 0 <= i < |p.items| ==> ItemPasses(env, p, i)
    ensures fresh(cache) && cache.Valid() && cache.git == env.git
  {
    var faults, loops := CheckPlanStructure(p.epic, Shapes(p.items));
    var structure := CheckResult(|faults| == 0, WrapAll(c => Structure(c), faults));
    cache := new AnchorCache(env.git);
    ghost var history;
    out, history := PrecheckItems(env, p, structure, cache);
    FiledHolds(Shapes(p.items), Outcomes(env, p), history);
    AllOkIffAllPass(env, p, out);
  }

  method PrecheckItems(env: Env, p: Plan, structure: CheckResult, cache: AnchorCache)
    returns (out: map<string, Verdict>, ghost history: seq<Verdict>)
    requires structure.pass == StructureOk(p.epic, Shapes(p.items))
    requires cache.Valid() && cache.git == env.git
    modifies cache
    ensures cache.Valid() && |history| == |p.items| && AllFor(Outcomes(env, p), history)
    ensures out == FileAll(Shapes(p.items), history)
  {
    var byId := ById(Shapes(p.items));
    var citers := IndexAnchorCiters(p.items);
    out, history := map[], [];
    for i := 0 to |p.items|
      invariant cache.Valid() && cache.git == env.git
      invariant |history| == i && AllFor(Outcomes(env, p), history)
      invariant out == FileAll(Shapes(p.items), history)
    {
      ghost var before := history;
      var v := PrecheckNext(env, p, i, structure, byId, citers, cache, history);
      history := history + [v];
      FileOneMore(Shapes(p.items), before, v);
      out := out[p.items[i].shape.id := v];
    }
  }

  /** The verdict of the next item, after those of `history`. */
  method PrecheckNext(env: Env, p: Plan, i: nat, structure: CheckResult, byId: map<string, Item>,
                      citers: map<string, seq<string>>, cache: AnchorCache, ghost history: seq<Verdict>)
    returns (v: Verdict)
    requires |history| == i < |p.items| && AllFor(Outcomes(env, p), history)
    requires structure.pass == StructureOk(p.epic, Shapes(p.items))
    requires byId == ById(Shapes(p.items)) && IsIndex(citers, p.items)
    requires cache.Valid() && cache.git == env.git
    modifies cache
    ensures cache.Valid() && AllFor(Outcomes(env, p), history + [v])
  {
    v := PrecheckItem(env, p, i, structure, byId, citers, cache);
  }

  /** Each verdict is the one its place asks for. */
  ghost predicate AllFor(outcomes: seq<map<string, bool>>, vs: seq<Verdict>)
    requires |vs| <= |outcomes|
  {
    forall k {:trigger VerdictFor(outcomes[k], vs[k])} :: 0 <= k < |vs| ==> VerdictFor(outcomes[k], vs[k])
  }

  /** The map that filing the verdicts in order, each under its item's id, leaves. */
  function FileAll(shapes: seq<Item>, vs: seq<Verdict>): map<string, Verdict>
    requires |vs| <= |shapes|
  {
    if vs == [] then map[]
    else FileAll(shapes, vs[..|vs| - 1])[shapes[|vs| - 1].id := vs[|vs| - 1]]
  }

  lemma FileOneMore(shapes: seq<Item>, vs: seq<Verdict>, v: Verdict)
    requires |vs| < |shapes|
    ensures FileAll(shapes, vs + [v]) == FileAll(shapes, vs)[shapes[|vs|].id := v]
  {
    assert (vs + [v])[..|vs|] == vs;
  }

  lemma {:induction false} FiledHolds(shapes: seq<Item>, outcomes: seq<map<string, bool>>, vs: seq<Verdict>)
    requires |vs| <= |shapes| == |outcomes| && AllFor(outcomes, vs)
    ensures HoldsVerdicts(shapes, outcomes, |vs|, FileAll(shapes, vs))
  {
    if vs == [] {
      NothingFiled(shapes, outcomes);
    } else {
      var front, n := vs[..|vs| - 1], |vs| - 1;
      FrontFor(outcomes, vs);
      FiledHolds(shapes, outcomes, front);
      FileVerdict(shapes, outcomes, n, FileAll(shapes, front), vs[n]);
    }
  }

  lemma FrontFor(outcomes: seq<map<string, bool>>, vs: seq<Verdict>)
    requires 0 < |vs| <= |outcomes| && AllFor(outcomes, vs)
    ensures AllFor(outcomes, vs[..|vs| - 1]) && VerdictFor(outcomes[|vs| - 1], vs[|vs| - 1])
  {
    forall k | 0 <= k < |vs| - 1 ensures VerdictFor(outcomes[k], vs[..|vs| - 1][k]) {
      assert VerdictFor(outcomes[k], vs[k]);
    }
  }

  /** After the first `n` items the map's keys are their ids, and each id holds something good for its last item. */
  ghost predicate HoldsLast<V(!new)>(shapes: seq<Item>, n: nat, out: map<string, V>, good: (nat, V) -> bool)
    requires n <= |shapes|
  {
    && (forall id :: id in out <==> exists k :: 0 <= k < n && shapes[k].id == id)
    && forall k :: 0 <= k < n && LastUpTo(shapes, k, n) ==> good(k, out[shapes[k].id])
  }

  ghost predicate HoldsVerdicts(shapes: seq<Item>, outcomes: seq<map<string, bool>>, n: nat, out: map<string, Verdict>)
    requires n <= |shapes| == |outcomes|
  {
    HoldsLast(shapes, n, out, (k: nat, v: Verdict) => k < |outcomes| && VerdictFor(outcomes[k], v))
  }

  /** No later item among the first `n` shares the id of item `k`. */
  ghost predicate LastUpTo(shapes: seq<Item>, k: nat, n: nat)
    requires k < n <= |shapes|
  {
    forall j :: k < j < n ==> shapes[j].id != shapes[k].id
  }

  lemma FileLast<V(!new)>(shapes: seq<Item>, i: nat, out: map<string, V>, v: V, good: (nat, V) -> bool)
    requires i < |shapes| && HoldsLast(shapes, i, out, good) && good(i, v)
    ensures HoldsLast(shapes, i + 1, out[shapes[i].id := v], good)
  {
    FileKeys(shapes, i, out, v, out[shapes[i].id := v]);
    FileGood(shapes, i, out, v, good);
  }

  lemma FileKeys<V(!new)>(shapes: seq<Item>, i: nat, out: map<string, V>, v: V, after: map<string, V>)
    requires i < |shapes| && after == out[shapes[i].id := v]
    requires forall id :: id in out <==> exists k :: 0 <= k < i && shapes[k].id == id
    ensures forall id :: id in after <==> exists k :: 0 <= k < i + 1 && shapes[k].id == id
  {
  }

  lemma FileGoodAt<V(!new)>(shapes: seq<Item>, i: nat, out: map<string, V>, v: V, good: (nat, V) -> bool, k: nat)
    requires i < |shapes| && good(i, v) && k < i + 1 && LastUpTo(shapes, k, i + 1)
    requires k < i ==> shapes[k].id in out && (LastUpTo(shapes, k, i) ==> good(k, out[shapes[k].id]))
    ensures shapes[k].id in out[shapes[i].id := v] && good(k, out[shapes[i].id := v][shapes[k].id])
  {
    if k < i {
      StillLast(shapes, k, i);
    }
  }

  lemma FileGood<V(!new)>(shapes: seq<Item>, i: nat, out: map<string, V>, v: V, good: (nat, V) -> bool)
    requires i < |shapes| && good(i, v)
    requires forall id :: id in out <==> exists k :: 0 <= k < i && shapes[k].id == id
    requires forall k :: 0 <= k < i && LastUpTo(shapes, k, i) ==> good(k, out[shapes[k].id])
    ensures forall k :: 0 <= k < i + 1 ==> shapes[k].id in out[shapes[i].id := v]
    ensures forall k :: 0 <= k < i + 1 && LastUpTo(shapes, k, i + 1) ==> good(k, out[shapes[i].id := v][shapes[k].id])
  {
    forall k | 0 <= k < i + 1 && LastUpTo(shapes, k, i + 1) ensures good(k, out[shapes[i].id := v][shapes[k].id]) {
      FileGoodAt(shapes, i, out, v, good, k);
    }
  }

  lemma StillLast(shapes: seq<Item>, k: nat, i: nat)
    requires k < i < |shapes| && LastUpTo(shapes, k, i + 1)
    ensures LastUpTo(shapes, k, i) && shapes[i].id != shapes[k].id
  {
  }

  lemma NothingFiled(shapes: seq<Item>, outcomes: seq<map<string, bool>>)
    requires |shapes| == |outcomes|
    ensures HoldsVerdicts(shapes, outcomes, 0, map[])
  {
  }

  lemma FileVerdict(shapes: seq<Item>, outcomes: seq<map<string, bool>>, i: nat, out: map<string, Verdict>, v: Verdict)
    requires i < |shapes| == |outcomes| && HoldsVerdicts(shapes, outcomes, i, out) && VerdictFor(outcomes[i], v)
    ensures HoldsVerdicts(shapes, outcomes, i + 1, out[shapes[i].id := v])
  {
    FileLast(shapes, i, out, v, (k: nat, w: Verdict) => k < |outcomes| && VerdictFor(outcomes[k], w));
  }

  lemma AllOkIffAllPass(env: Env, p: Plan, out: map<string, Verdict>)
    requires HoldsVerdicts(Shapes(p.items), Outcomes(env, p), |p.items|, out)
    ensures (forall id <- out :: out[id].ok) <==> forall i :: 0 <= i < |p.items| ==> ItemPasses(env, p, i)
  {
    var outcomes := Outcomes(env, p);
    forall i | 0 <= i < |p.items| ensures AllTrue(outcomes[i]) <==> ItemPasses(env, p, i) {
      ExpectedAllTrue(env, p, i);
    }
    PassingNeedsDistinctIds(env, p);
    VerdictsMaskNothing(Shapes(p.items), outcomes, out);
  }

  lemma VerdictsMaskNothing(shapes: seq<Item>, outcomes: seq<map<string, bool>>, out: map<string, Verdict>)
    requires |shapes| == |outcomes| && HoldsVerdicts(shapes, outcomes, |shapes|, out)
    requires (exists i :: 0 <= i < |shapes| && AllTrue(outcomes[i])) ==> DistinctIds(shapes)
    ensures (forall id <- out :: out[id].ok) <==> forall i :: 0 <= i < |shapes| ==> AllTrue(outcomes[i])
  {
    var passes := seq(|shapes|, i requires 0 <= i < |shapes| => AllTrue(outcomes[i]));
    assert forall i :: 0 <= i < |shapes| ==> passes[i] == AllTrue(outcomes[i]);
    var oks := map id | id in out :: out[id].ok;
    OksHold(shapes, outcomes, out);
    NoMasking(shapes, passes, oks);
    OksAgree(out);
  }

  lemma OksAgree(out: map<string, Verdict>)
    ensures var oks := map id | id in out :: out[id].ok;
      (forall id <- oks :: oks[id]) <==> forall id <- out :: out[id].ok
  {
    var oks := map id | id in out :: out[id].ok;
    assert forall id :: id in oks <==> id in out;
    assert forall id <- out :: oks[id] == out[id].ok;
  }

  lemma OksHold(shapes: seq<Item>, outcomes: seq<map<string, bool>>, out: map<string, Verdict>)
    requires |shapes| == |outcomes| && HoldsVerdicts(shapes, outcomes, |shapes|, out)
    ensures var oks := map id | id in out :: out[id].ok;
      && (forall id :: id in oks <==> exists k :: 0 <= k < |shapes| && shapes[k].id == id)
      && forall k :: 0 <= k < |shapes| && LastUpTo(shapes, k, |shapes|) ==> oks[shapes[k].id] == AllTrue(outcomes[k])
  {
    forall k | 0 <= k < |shapes| && LastUpTo(shapes, k, |shapes|) ensures out[shapes[k].id].ok == AllTrue(outcomes[k]) {
      assert VerdictFor(outcomes[k], out[shapes[k].id]);
    }
  }

  lemma PassingNeedsDistinctIds(env: Env, p: Plan)
    ensures (exists i :: 0 <= i < |p.items| && ItemPasses(env, p, i)) ==> DistinctIds(Shapes(p.items))
  {
  }

  /** A last-wins map hides no failure as long as a single pass already implies distinct ids. */
  lemma NoMasking(shapes: seq<Item>, passes: seq<bool>, oks: map<string, bool>)
    requires |shapes| == |passes|
    requires forall id :: id in oks <==> exists k :: 0 <= k < |shapes| && shapes[k].id == id
    requires forall k :: 0 <= k < |shapes| && LastUpTo(shapes, k, |shapes|) ==> oks[shapes[k].id] == passes[k]
    requires (exists i :: 0 <= i < |shapes| && passes[i]) ==> DistinctIds(shapes)
    ensures (forall id <- oks :: oks[id]) <==> forall i :: 0 <= i < |shapes| ==> passes[i]
  {
    forall i | 0 <= i < |shapes|
      ensures Declared(shapes, shapes[i].id)
      ensures oks[shapes[i].id] == passes[LastIndex(shapes, shapes[i].id)]
    {
      assert Declared(shapes, shapes[i].id);
      assert LastUpTo(shapes, LastIndex(shapes, shapes[i].id), |shapes|);
    }
    if forall id <- oks :: oks[id] {
      forall i | 0 <= i < |shapes| ensures passes[i] {
        assert passes[LastIndex(shapes, shapes[i].id)];
      }
    }
  }
}
