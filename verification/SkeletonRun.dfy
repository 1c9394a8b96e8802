/** The skeleton gate as a whole: seven checks, one verdict, and its acceptance by the service. */
module SkeletonRun {
  import opened Wrappers
  import opened Tree
  import opened Precheck
  import opened Gate
  import opened SkeletonGate
  import opened Schedule
  import CycleSearch

  /** The results of the three checks this model does not look into. */
  datatype Others = Others(sizing: CheckResult, summaries: CheckResult, language: CheckResult)

  /** Seven results filed under the seven check names. */
  function FileSeven<T>(a: T, b: T, c: T, d: T, e: T, f: T, g: T): map<string, T> {
    map[
      "acyclic" := a,
      "hierarchy_legal" := b,
      "order_consistent" := c,
      "milestone_shippable" := d,
      "sizing_sane" := e,
      "summary_consistency" := f,
      "output_language_metadata" := g]
  }

  lemma SevenNamesDiffer()
    ensures forall i, j :: 0 <= i < j < |SKELETON_CHECKS| ==> SKELETON_CHECKS[i] != SKELETON_CHECKS[j]
  {
    assert |"acyclic"| == 7 && |"hierarchy_legal"| == 15 && |"order_consistent"| == 16 && |"sizing_sane"| == 11;
    assert |"milestone_shippable"| == |"summary_consistency"| == 19 && |"output_language_metadata"| == 24;
    assert "milestone_shippable"[0] != "summary_consistency"[0];
  }

  lemma FiledInOrder<T>(a: T, b: T, c: T, d: T, e: T, f: T, g: T)
    ensures var m := FileSeven(a, b, c, d, e, f, g);
      && m.Keys == (set name | name in SKELETON_CHECKS)
      && forall k :: 0 <= k < |SKELETON_CHECKS| ==> m[SKELETON_CHECKS[k]] == [a, b, c, d, e, f, g][k]
  {
    SevenNamesDiffer();
  }

  /** What the four modelled checks and the three others must say for a skeleton to pass. */
  ghost predicate SkeletonPasses(s: Skeleton, others: Others) {
    && Acyclic(s.items) && HierarchyLegal(s) && OrderConsistent(s.items) && Shippable(s)
    && others.sizing.pass && others.summaries.pass && others.language.pass
  }

  function Faults(cs: seq<Complaint>): CheckResult {
    CheckResult(cs == [], WrapAll(c => SkeletonFault(c), cs))
  }

  /** `ValidateSkeleton`: the verdict is OK exactly when every check passes. */
  method ValidateSkeleton(s: Skeleton, others: Others) returns (v: Verdict)
    ensures TruthfulVerdict(SKELETON_CHECKS, v)
    ensures v.ok <==> SkeletonPasses(s, others)
    ensures v.complaints == AllComplaints(SKELETON_CHECKS, v.checks)
  {
    var acyclic, path := CycleSearch.CheckAcyclic(s);
    var hierarchy, byId := CheckHierarchyLegal(s);
    var order := CheckOrderConsistent(s.items);
    var shippable := CheckMilestoneShippable(s);
    var cycle := CheckResult(acyclic, if acyclic then [] else [CyclePath(path)]);
    v := SevenVerdict([cycle, Faults(hierarchy), Faults(order), Faults(shippable), others.sizing, others.summaries, others.language]);
  }

  method SevenVerdict(r: seq<CheckResult>) returns (v: Verdict)
    requires |r| == 7
    ensures TruthfulVerdict(SKELETON_CHECKS, v)
    ensures v.ok <==> r[0].pass && r[1].pass && r[2].pass && r[3].pass && r[4].pass && r[5].pass && r[6].pass
    ensures v.complaints == AllComplaints(SKELETON_CHECKS, v.checks)
  {
    var filed := FileSeven(r[0], r[1], r[2], r[3], r[4], r[5], r[6]);
    FiledInOrder(r[0], r[1], r[2], r[3], r[4], r[5], r[6]);
    assert r == [r[0], r[1], r[2], r[3], r[4], r[5], r[6]];
    v := BuildVerdict(SKELETON_CHECKS, filed);
    AllPassInOrder(filed, SKELETON_CHECKS, r);
    SevenPass(r);
  }

  lemma AllPassInOrder(filed: map<string, CheckResult>, order: seq<string>, results: seq<CheckResult>)
    requires filed.Keys == (set name | name in order) && |order| == |results|
    requires forall k :: 0 <= k < |order| ==> filed[order[k]] == results[k]
    ensures (forall name <- order :: ResultOf(filed, name).pass) <==> forall k :: 0 <= k < |results| ==> results[k].pass
    ensures (forall name <- order :: ResultOf(filed, name).pass) <==> forall name <- filed :: filed[name].pass
  {
    if forall name <- order :: ResultOf(filed, name).pass {
      forall k | 0 <= k < |results| ensures results[k].pass {
        assert order[k] in order;
      }
    }
  }

  lemma SevenPass(r: seq<CheckResult>)
    requires |r| == 7
    ensures (forall k :: 0 <= k < 7 ==> r[k].pass) <==>
              r[0].pass && r[1].pass && r[2].pass && r[3].pass && r[4].pass && r[5].pass && r[6].pass
  {
  }

  /** `runSkeleton` on a skeleton that decoded cleanly: the printed verdict and the exit code. */
  method RunSkeleton(s: Skeleton, others: Others, text: seq<GateComplaint> -> string) returns (printed: Value, code: int)
    ensures code == if SkeletonPasses(s, others) then 0 else 1
    ensures IsVerdict(printed, SKELETON_CHECKS) && printed.fields["ok"] == Bool(SkeletonPasses(s, others))
  {
    var v := ValidateSkeleton(s, others);
    printed := EncodeVerdict(v, text);
    code := if v.ok then 0 else 1;
    EncodedVerdictIsVerdict(SKELETON_CHECKS, v, text);
  }

  /** Binary and service together accept a skeleton exactly when all seven checks pass. */
  method GateTheSkeleton(s: Skeleton, others: Others, stdin: Option<Value>, text: seq<GateComplaint> -> string)
    returns (ok: bool)
    ensures ok <==> SkeletonPasses(s, others)
  {
    var printed, code := RunSkeleton(s, others, text);
    ok := AcceptRun(code, Some(printed), "skeleton", stdin);
  }

  /** So an accepted skeleton can be run milestone by milestone: every item once, after all its prerequisites. */
  lemma AcceptedSkeletonRuns(s: Skeleton, others: Others)
    requires SkeletonPasses(s, others)
    ensures var q := RunOrder(s, |s.milestones|);
      && (forall i :: 0 <= i < |s.items| ==> i in q)
      && (forall k, dep :: 0 <= k < |q| && dep in s.items[q[k]].dependsOn ==>
            Declared(s.items, dep) && LastIndex(s.items, dep) in q[..k])
  {
    RunOrderIsTopological(s);
  }
}
