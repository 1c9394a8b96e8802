/** The shape of a ticket tree: what the skeleton and the groomed plan have in common. */
module Tree {
  import opened Wrappers

  datatype ItemType = Story | Task | Feature | Request | Bug | Test | SubTask | Other(name: string)

  /** The types allowed directly under the epic or on their own. */
  predicate IsL0(t: ItemType) {
    t in {Story, Task, Feature, Request, Bug, Test}
  }

  datatype Item = Item(
    id: string,
    kind: ItemType,
    parent: Option<string>,
    dependsOn: seq<string>,
    milestone: Option<string>,
    repo: string)

  datatype Milestone = Milestone(id: string, order: int)
  datatype Epic = Epic(id: string, existingKey: Option<string>)
  datatype Skeleton = Skeleton(epic: Option<Epic>, milestones: seq<Milestone>, items: seq<Item>)

  predicate Declared(items: seq<Item>, id: string) {
    exists i :: 0 <= i < |items| && items[i].id == id
  }

  /** The position a map filled in item order ends up holding for `id`, or -1. */
  function LastIndex(items: seq<Item>, id: string): (r: int)
    ensures -1 <= r < |items|
    ensures r >= 0 <==> Declared(items, id)
    ensures r >= 0 ==> items[r].id == id
    ensures forall k :: r < k < |items| ==> items[k].id != id
  {
    if items == [] then -1
    else if items[|items| - 1].id == id then |items| - 1
    else LastIndex(items[..|items| - 1], id)
  }

  ghost predicate DistinctIds(items: seq<Item>) {
    forall i, j :: 0 <= i < j < |items| ==> items[i].id != items[j].id
  }

  /** "`u` depends on `v`": some item called `u` lists the declared id `v`. */
  ghost predicate DependsEdge(items: seq<Item>, u: string, v: string) {
    Declared(items, v) && exists i :: 0 <= i < |items| && items[i].id == u && v in items[i].dependsOn
  }

  /** A closed walk along dependency edges: first id = last id. */
  ghost predicate DependsCycle(items: seq<Item>, p: seq<string>) {
    && |p| >= 2
    && p[0] == p[|p| - 1]
    && forall k :: 0 <= k < |p| - 1 ==> DependsEdge(items, p[k], p[k + 1])
  }

  ghost predicate Acyclic(items: seq<Item>) {
    forall p :: !DependsCycle(items, p)
  }
}
