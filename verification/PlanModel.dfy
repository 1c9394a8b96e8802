/** The groomed plan as the gate decodes it. */
module PlanModel {
  import opened Wrappers
  import opened Tree

  datatype Effort = Low | Medium | High | Max | OtherEffort(name: string)
  datatype Tier1 = SingleRepoSequenced | NeedsHuman | OtherTier1(name: string)

  datatype PlanItem = PlanItem(
    shape: Item,
    effort: Effort,
    predictedCostUsd: real,
    why: string,
    definitionOfDone: string,
    prose: string,
    acceptance: seq<string>,
    anchors: seq<string>,
    couplingZones: seq<string>,
    tier1: Tier1)

  datatype Plan = Plan(epic: Option<Epic>, milestones: seq<Milestone>, items: seq<PlanItem>)

  function Shapes(items: seq<PlanItem>): (r: seq<Item>)
    ensures |r| == |items| && forall i :: 0 <= i < |items| ==> r[i] == items[i].shape
  {
    seq(|items|, i requires 0 <= i < |items| => items[i].shape)
  }
}
