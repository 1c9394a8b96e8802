/** The service's acceptance boundary around the gate binary. */
module Gate {
  import opened Wrappers
  import opened Text
  import opened Tree
  import opened PlanModel
  import opened Precheck
  import Anchors
  import PlanStructure
  import CompareStructure
  import Zones

  /** A decoded JSON value. */
  datatype Value = Null | Bool(b: bool) | Num(n: real) | Str(s: string) | Arr(elems: seq<Value>) | Obj(fields: map<string, Value>)

  function Field(v: Value, name: string): Option<Value> {
    if v.Obj? && name in v.fields then Some(v.fields[name]) else None
  }

  // ---------------------------------------------------------------- what the binary prints

  function EncodeCheck(c: CheckResult): Value {
    Obj(map["pass" := Bool(c.pass)])
  }

  function EncodeVerdict(v: Verdict, text: seq<GateComplaint> -> string): Value {
    Obj(map[
      "ok" := Bool(v.ok),
      "checks" := Obj(map name | name in v.checks :: EncodeCheck(v.checks[name])),
      "hard_fail" := Bool(v.hardFail),
      "regen_complaint" := Str(text(v.complaints))])
  }

  ghost predicate AllOk(out: map<string, Verdict>) {
    forall id <- out :: out[id].ok
  }

  function PrintedItems(out: map<string, Verdict>, text: seq<GateComplaint> -> string): map<string, Value> {
    map id | id in out :: EncodeVerdict(out[id], text)
  }

  /** `runPlan` on a plan that decoded cleanly: the printed object and the exit code. */
  method RunPlan(env: Env, p: Plan, text: seq<GateComplaint> -> string)
    returns (printed: Value, code: int, ghost out: map<string, Verdict>)
    requires Anchors.ArgumentsAreNulFree(env.git)
    ensures HoldsVerdicts(Shapes(p.items), Outcomes(env, p), |p.items|, out)
    ensures printed == Obj(map["items" := Obj(PrintedItems(out, text)), "ok" := Bool(AllOk(out))])
    ensures code == if AllOk(out) then 0 else 1
    ensures code == 0 <==> forall i :: 0 <= i < |p.items| ==> ItemPasses(env, p, i)
  {
    var verdicts, cache := PrecheckPlan(env, p);
    out := verdicts;
    var allOk := Conjoin(verdicts);
    printed := Obj(map["items" := Obj(PrintedItems(verdicts, text)), "ok" := Bool(allOk)]);
    code := if allOk then 0 else 1;
  }

  /** The loop over the verdict map, in whatever order the map yields its keys. */
  method Conjoin(verdicts: map<string, Verdict>) returns (allOk: bool)
    ensures allOk <==> AllOk(verdicts)
  {
    allOk := true;
    var ids := verdicts.Keys;
    while ids != {}
      invariant ids <= verdicts.Keys
      invariant allOk && forall id <- verdicts.Keys - ids :: verdicts[id].ok
      decreases ids
    {
      var id :| id in ids;
      ids := ids - {id};
      if !verdicts[id].ok {
        return false;
      }
    }
  }

  // ---------------------------------------------------------------- what the service accepts

  predicate IsCheck(v: Value) {
    v.Obj? && Field(v, "pass").Some? && Field(v, "pass").value.Bool?
  }

  function CheckPass(v: Value): bool
    requires IsCheck(v)
  {
    v.fields["pass"].b
  }

  /** `isVerdict`: the documented shape, no required check missing, and `ok` the truth about the checks. */
  predicate IsVerdict(v: Value, required: seq<string>) {
    && v.Obj?
    && Field(v, "ok").Some? && v.fields["ok"].Bool?
    && Field(v, "hard_fail").Some? && v.fields["hard_fail"].Bool?
    && Field(v, "regen_complaint").Some? && v.fields["regen_complaint"].Str?
    && Field(v, "checks").Some? && v.fields["checks"].Obj?
    && (var checks := v.fields["checks"].fields;
        && (forall name <- required :: name in checks)
        && |checks| != 0
        && (forall name <- checks :: IsCheck(checks[name]))
        && (var allPass := forall name <- checks :: CheckPass(checks[name]);
            v.fields["ok"].b == allPass && v.fields["hard_fail"].b == !v.fields["ok"].b))
  }

  predicate ItemHasId(item: Value) {
    Field(item, "temp_id").Some? && Field(item, "temp_id").value.Str? && !JsBlank(TempId(item))
  }

  /** Every item carries a non-blank id, and no two the same. */
  ghost predicate IdsUsable(items: seq<Value>) {
    && (forall i :: 0 <= i < |items| ==> ItemHasId(items[i]))
    && forall i, j :: 0 <= i < j < |items| ==> TempId(items[i]) != TempId(items[j])
  }

  ghost predicate PlanIdsUsable(plan: Value) {
    && Field(plan, "items").Some? && plan.fields["items"].Arr?
    && plan.fields["items"].elems != [] && IdsUsable(plan.fields["items"].elems)
  }

  ghost function PlanIds(plan: Value): set<string>
    requires PlanIdsUsable(plan)
  {
    IdSet(plan.fields["items"].elems, |plan.fields["items"].elems|)
  }

  /** The ids of the first `n` items. */
  ghost function IdSet(items: seq<Value>, n: nat): set<string>
    requires n <= |items|
  {
    set k | 0 <= k < n :: TempId(items[k])
  }

  function TempId(item: Value): string {
    if Field(item, "temp_id").Some? && item.fields["temp_id"].Str? then item.fields["temp_id"].s else ""
  }

  /** `planItemIDs`; standard input that is not JSON decodes to nothing. */
  method PlanItemIds(stdin: Option<Value>) returns (r: Option<set<string>>)
    ensures r.Some? <==> stdin.Some? && PlanIdsUsable(stdin.value)
    ensures r.Some? ==> r.value == PlanIds(stdin.value)
  {
    if stdin.None? {
      return None;
    }
    var plan := stdin.value;
    if Field(plan, "items").None? || !plan.fields["items"].Arr? || |plan.fields["items"].elems| == 0 {
      return None;
    }
    var items := plan.fields["items"].elems;
    var ids: set<string> := {};
    for i := 0 to |items|
      invariant forall k :: 0 <= k < i ==> ItemHasId(items[k])
      invariant forall j, k :: 0 <= j < k < i ==> TempId(items[j]) != TempId(items[k])
      invariant ids == IdSet(items, i)
    {
      if !ItemHasId(items[i]) || TempId(items[i]) in ids {
        return None;
      }
      ids := ids + {TempId(items[i])};
    }
    return Some(ids);
  }

  /** Exactly the ids `ids` carry verdicts of the documented shape, and the overall `ok` is their conjunction. */
  ghost predicate ExpectedPlanOutput(printed: Value, ids: set<string>) {
    && Field(printed, "ok").Some? && printed.fields["ok"].Bool?
    && Field(printed, "items").Some? && printed.fields["items"].Obj?
    && printed.fields["items"].fields.Keys == ids
    && VerdictsAgree(printed.fields["items"].fields, printed.fields["ok"].b)
  }

  predicate VerdictsAgree(verdicts: map<string, Value>, ok: bool) {
    && (forall id <- verdicts :: IsVerdict(verdicts[id], PLAN_CHECK_ORDER))
    && ok == forall id <- verdicts :: verdicts[id].fields["ok"].b
  }

  const SKELETON_CHECKS: seq<string> := [
    "acyclic", "hierarchy_legal", "order_consistent", "milestone_shippable",
    "sizing_sane", "summary_consistency", "output_language_metadata"]

  /** What each mode's output must be; no other mode has any. */
  ghost predicate ExpectedOutput(printed: Value, mode: string, stdin: Option<Value>) {
    if mode == "skeleton" then IsVerdict(printed, SKELETON_CHECKS)
    else mode == "plan" && stdin.Some? && PlanIdsUsable(stdin.value) && ExpectedPlanOutput(printed, PlanIds(stdin.value))
  }

  /** `isExpectedOutput`; in plan mode the code compares sizes and tests one inclusion. */
  method IsExpectedOutput(printed: Value, mode: string, stdin: Option<Value>) returns (r: bool)
    ensures r <==> ExpectedOutput(printed, mode, stdin)
  {
    if mode == "skeleton" {
      return IsVerdict(printed, SKELETON_CHECKS);
    }
    if mode != "plan" {
      return false;
    }
    r := IsExpectedPlanOutput(printed, stdin);
  }

  method IsExpectedPlanOutput(printed: Value, stdin: Option<Value>) returns (r: bool)
    ensures r <==> stdin.Some? && PlanIdsUsable(stdin.value) && ExpectedPlanOutput(printed, PlanIds(stdin.value))
  {
    if Field(printed, "ok").None? || !printed.fields["ok"].Bool?
       || Field(printed, "items").None? || !printed.fields["items"].Obj? {
      return false;
    }
    var expected := PlanItemIds(stdin);
    if expected.None? {
      return false;
    }
    var verdicts := printed.fields["items"].fields;
    CompareStructure.SetTestIsInequality(verdicts.Keys, expected.value);
    if |verdicts| != |expected.value| || exists id <- verdicts.Keys :: id !in expected.value {
      return false;
    }
    r := VerdictsAgree(verdicts, printed.fields["ok"].b);
  }

  /** The boundary's acceptance of a finished run; standard output that is not JSON decodes to nothing. */
  method AcceptRun(code: int, stdout: Option<Value>, mode: string, stdin: Option<Value>) returns (ok: bool)
    ensures ok <==> AcceptedRun(code, stdout, mode, stdin)
  {
    var expected := false;
    if stdout.Some? {
      expected := IsExpectedOutput(stdout.value, mode, stdin);
    }
    ok := code == 0 && expected && SaysOk(stdout.value);
  }

  predicate SaysOk(printed: Value) {
    Field(printed, "ok") == Some(Bool(true))
  }

  ghost predicate AcceptedRun(code: int, stdout: Option<Value>, mode: string, stdin: Option<Value>) {
    code == 0 && stdout.Some? && ExpectedOutput(stdout.value, mode, stdin) && SaysOk(stdout.value)
  }

  /** Acceptance in plan mode. */
  ghost predicate Accepted(printed: Value, plan: Value) {
    PlanIdsUsable(plan) && ExpectedPlanOutput(printed, PlanIds(plan)) && printed.fields["ok"].b
  }

  lemma AcceptedPlanRun(code: int, printed: Value, plan: Value)
    ensures AcceptedRun(code, Some(printed), "plan", Some(plan)) <==> code == 0 && Accepted(printed, plan)
  {
    assert "plan"[0] != "skeleton"[0];
  }

  // ---------------------------------------------------------------- producer and validator agree

  /** `v` is the standard input that decodes to the plan's items, as far as ids go. */
  ghost predicate Carries(v: Value, p: Plan) {
    && Field(v, "items").Some? && v.fields["items"].Arr?
    && |v.fields["items"].elems| == |p.items|
    && forall i :: 0 <= i < |p.items| ==> Field(v.fields["items"].elems[i], "temp_id") == Some(Str(p.items[i].shape.id))
  }

  /** A verdict with exactly the checks of an order, OK exactly when all pass. */
  ghost predicate TruthfulVerdict(order: seq<string>, v: Verdict) {
    && v.checks.Keys == (set name | name in order)
    && (v.ok <==> forall name <- v.checks :: v.checks[name].pass)
    && v.hardFail == !v.ok
  }

  lemma EncodedVerdictIsVerdict(order: seq<string>, v: Verdict, text: seq<GateComplaint> -> string)
    requires order != [] && TruthfulVerdict(order, v)
    ensures IsVerdict(EncodeVerdict(v, text), order)
    ensures EncodeVerdict(v, text).fields["ok"] == Bool(v.ok)
  {
    EncodedKeys(v, text);
    var checks := EncodeVerdict(v, text).fields["checks"].fields;
    assert checks.Keys == v.checks.Keys;
    assert order[0] in order;
    assert order[0] in checks;
    forall name | name in checks ensures IsCheck(checks[name]) && CheckPass(checks[name]) == v.checks[name].pass {
      assert checks[name] == EncodeCheck(v.checks[name]);
      CheckEncodes(v.checks[name]);
    }
  }

  lemma CheckEncodes(c: CheckResult)
    ensures IsCheck(EncodeCheck(c)) && CheckPass(EncodeCheck(c)) == c.pass
  {
  }

  lemma VerdictForIsTruthful(expected: map<string, bool>, v: Verdict)
    requires VerdictFor(expected, v) && expected.Keys == (set name | name in PLAN_CHECK_ORDER)
    ensures TruthfulVerdict(PLAN_CHECK_ORDER, v)
  {
  }

  lemma EncodedKeys(v: Verdict, text: seq<GateComplaint> -> string)
    ensures var f := EncodeVerdict(v, text).fields;
      && Field(Obj(f), "ok") == Some(Bool(v.ok)) && Field(Obj(f), "hard_fail") == Some(Bool(v.hardFail))
      && Field(Obj(f), "regen_complaint") == Some(Str(text(v.complaints)))
      && Field(Obj(f), "checks") == Some(Obj(map name | name in v.checks :: EncodeCheck(v.checks[name])))
  {
    assert |"ok"| == 2 && |"checks"| == 6 && |"hard_fail"| == 9 && |"regen_complaint"| == 15;
  }

  ghost predicate IdsNonBlankAndDistinct(p: Plan) {
    (forall i :: 0 <= i < |p.items| ==> !JsBlank(p.items[i].shape.id)) && DistinctIds(Shapes(p.items))
  }

  lemma CarriedIdsUsable(v: Value, p: Plan)
    requires Carries(v, p)
    ensures PlanIdsUsable(v) <==> p.items != [] && IdsNonBlankAndDistinct(p)
    ensures PlanIdsUsable(v) ==> forall id :: id in PlanIds(v) <==> Declared(Shapes(p.items), id)
  {
    var items := v.fields["items"].elems;
    forall i | 0 <= i < |p.items|
      ensures ItemHasId(items[i]) <==> !JsBlank(p.items[i].shape.id)
      ensures Field(items[i], "temp_id").Some? && items[i].fields["temp_id"] == Str(p.items[i].shape.id)
    {
    }
    if PlanIdsUsable(v) {
      forall i, j | 0 <= i < j < |p.items| ensures p.items[i].shape.id != p.items[j].shape.id {
        assert TempId(items[i]) != TempId(items[j]);
      }
    }
  }

  lemma EncodedOutputIsExpected(out: map<string, Verdict>, outcomes: seq<map<string, bool>>, shapes: seq<Item>,
                                text: seq<GateComplaint> -> string)
    requires |outcomes| == |shapes| && HoldsVerdicts(shapes, outcomes, |shapes|, out)
    requires forall i :: 0 <= i < |shapes| ==> outcomes[i].Keys == (set name | name in PLAN_CHECK_ORDER)
    ensures var items := PrintedItems(out, text);
      && VerdictsAgree(items, AllOk(out))
      && forall id <- out :: items[id].fields["ok"] == Bool(out[id].ok)
  {
    var items := PrintedItems(out, text);
    forall id | id in out
      ensures IsVerdict(items[id], PLAN_CHECK_ORDER) && items[id].fields["ok"] == Bool(out[id].ok)
    {
      assert Declared(shapes, id);
      var k := LastIndex(shapes, id);
      assert LastUpTo(shapes, k, |shapes|);
      VerdictForIsTruthful(outcomes[k], out[id]);
      EncodedVerdictIsVerdict(PLAN_CHECK_ORDER, out[id], text);
    }
  }

  lemma OutcomeKeys(env: Env, p: Plan)
    ensures forall i :: 0 <= i < |p.items| ==> Outcomes(env, p)[i].Keys == (set name | name in PLAN_CHECK_ORDER)
  {
    forall i | 0 <= i < |p.items| ensures Outcomes(env, p)[i].Keys == (set name | name in PLAN_CHECK_ORDER) {
      var it := p.items[i];
      FiledUnderTheirNames(
        PlanStructure.StructureOk(p.epic, Shapes(p.items)), PlanStructure.TypeLegal(p.epic, Shapes(p.items), it.shape),
        FieldsPresent(it), SingleRepo(env.th, it), Anchors.AllAnchorsResolve(env.git, it.anchors), true,
        env.coupling.Zones? && Zones.RoutingRules(env.lower, env.coupling.zones, it), true);
    }
  }

  /** The whole boundary, binary and service: a plan is accepted exactly when it has items, every item passes
      every check, and no id is blank. */
  method GatePlan(env: Env, p: Plan, stdin: Value, text: seq<GateComplaint> -> string) returns (ok: bool)
    requires Anchors.ArgumentsAreNulFree(env.git) && Carries(stdin, p)
    ensures ok <==>
              && p.items != []
              && (forall i :: 0 <= i < |p.items| ==> ItemPasses(env, p, i))
              && forall i :: 0 <= i < |p.items| ==> !JsBlank(p.items[i].shape.id)
  {
    var printed, code, out := RunPlan(env, p, text);
    ok := AcceptRun(code, Some(printed), "plan", Some(stdin));
    AcceptedPlanRun(code, printed, stdin);
    if code == 0 {
      OutcomeKeys(env, p);
      PassingRunIsAccepted(p, Outcomes(env, p), out, stdin, printed, text);
    }
    if p.items != [] && forall i :: 0 <= i < |p.items| ==> ItemPasses(env, p, i) {
      AcceptanceMeaning(env, p);
    }
  }

  lemma AcceptanceMeaning(env: Env, p: Plan)
    requires p.items != [] && forall i :: 0 <= i < |p.items| ==> ItemPasses(env, p, i)
    ensures DistinctIds(Shapes(p.items))
  {
    PassingNeedsDistinctIds(env, p);
    assert ItemPasses(env, p, 0);
  }

  lemma PrintedFields(out: map<string, Verdict>, text: seq<GateComplaint> -> string)
    ensures var printed := Obj(map["items" := Obj(PrintedItems(out, text)), "ok" := Bool(AllOk(out))]);
      Field(printed, "items") == Some(Obj(PrintedItems(out, text))) && Field(printed, "ok") == Some(Bool(AllOk(out)))
  {
    assert |"items"| == 5 && |"ok"| == 2;
  }

  /** A successful run's output is accepted unless the ids are unusable to the service. */
  lemma PassingRunIsAccepted(p: Plan, outcomes: seq<map<string, bool>>, out: map<string, Verdict>, stdin: Value,
                             printed: Value, text: seq<GateComplaint> -> string)
    requires Carries(stdin, p) && |outcomes| == |p.items|
    requires forall i :: 0 <= i < |outcomes| ==> outcomes[i].Keys == (set name | name in PLAN_CHECK_ORDER)
    requires HoldsVerdicts(Shapes(p.items), outcomes, |p.items|, out) && AllOk(out)
    requires printed == Obj(map["items" := Obj(PrintedItems(out, text)), "ok" := Bool(AllOk(out))])
    ensures Accepted(printed, stdin) <==> p.items != [] && IdsNonBlankAndDistinct(p)
  {
    CarriedIdsUsable(stdin, p);
    if PlanIdsUsable(stdin) {
      VerdictKeysAreDeclared(Shapes(p.items), outcomes, out);
      EncodedOutputIsExpected(out, outcomes, Shapes(p.items), text);
      FullOutputIsAccepted(out, stdin, printed, text);
    }
  }

  lemma VerdictKeysAreDeclared(shapes: seq<Item>, outcomes: seq<map<string, bool>>, out: map<string, Verdict>)
    requires |outcomes| == |shapes| && HoldsVerdicts(shapes, outcomes, |shapes|, out)
    ensures forall id :: id in out <==> Declared(shapes, id)
  {
  }

  lemma FullOutputIsAccepted(out: map<string, Verdict>, stdin: Value, printed: Value, text: seq<GateComplaint> -> string)
    requires PlanIdsUsable(stdin) && AllOk(out) && VerdictsAgree(PrintedItems(out, text), true)
    requires forall id :: id in out <==> id in PlanIds(stdin)
    requires printed == Obj(map["items" := Obj(PrintedItems(out, text)), "ok" := Bool(AllOk(out))])
    ensures Accepted(printed, stdin)
  {
    PrintedFields(out, text);
    PrintedKeys(out, text);
    assert out.Keys == PlanIds(stdin);
  }

  lemma PrintedKeys(out: map<string, Verdict>, text: seq<GateComplaint> -> string)
    ensures PrintedItems(out, text).Keys == out.Keys
  {
  }

  /** Whatever program produced it, accepted output vouches for every item: each id has a verdict on record
      with every required check present and passing. */
  lemma AcceptedOutputVouches(printed: Value, plan: Value, i: nat, name: string)
    requires Accepted(printed, plan)
    requires i < |plan.fields["items"].elems| && name in PLAN_CHECK_ORDER
    ensures var id := TempId(plan.fields["items"].elems[i]);
      && !JsBlank(id) && id in printed.fields["items"].fields
      && var verdict := printed.fields["items"].fields[id];
         && verdict.fields["ok"] == Bool(true) && verdict.fields["hard_fail"] == Bool(false)
         && verdict.fields["regen_complaint"].Str?
         && name in verdict.fields["checks"].fields
         && IsCheck(verdict.fields["checks"].fields[name]) && CheckPass(verdict.fields["checks"].fields[name])
  {
    var id := TempId(plan.fields["items"].elems[i]);
    assert id in PlanIds(plan);
    assert IsVerdict(printed.fields["items"].fields[id], PLAN_CHECK_ORDER);
  }

  /** What is refused whatever the checks say: a verdict without a check, with a mark missing or of another type, or
      whose marks contradict the checks or each other. */
  lemma MalformedIsNoVerdict(v: Value, required: seq<string>)
    ensures IsVerdict(v, required) ==>
              && v.Obj? && {"ok", "hard_fail", "regen_complaint", "checks"} <= v.fields.Keys
              && v.fields["ok"].Bool? && v.fields["hard_fail"].Bool? && v.fields["regen_complaint"].Str?
              && v.fields["checks"].Obj? && v.fields["checks"].fields != map[]
              && (forall name <- required :: name in v.fields["checks"].fields)
              && v.fields["hard_fail"].b != v.fields["ok"].b
              && (v.fields["ok"].b <==> forall name <- v.fields["checks"].fields :: CheckPass(v.fields["checks"].fields[name]))
  {
  }

  /** The same for a skeleton's one verdict. */
  lemma AcceptedSkeletonVouches(code: int, printed: Value, stdin: Option<Value>, name: string)
    requires AcceptedRun(code, Some(printed), "skeleton", stdin) && name in SKELETON_CHECKS
    ensures Field(printed, "checks").Some? && printed.fields["checks"].Obj?
    ensures name in printed.fields["checks"].fields
    ensures IsCheck(printed.fields["checks"].fields[name]) && CheckPass(printed.fields["checks"].fields[name])
  {
  }
}
