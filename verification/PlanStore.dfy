/** The plan store: an in-memory map mirrored to one JSON file per plan, compare-and-swap on the status, and the
    crash-resume sweep at boot. */
module PlanStore {
  import opened Wrappers

  /** A plan record, as the JSON object it is. */
  type Plan = map<string, string>
  datatype Content = PlanFile(plan: Plan) | Garbled
  type Disk = map<string, Content>
  type Plans = map<string, Plan>

  const TRANSIENT: set<string> := {"breaking_down", "grooming", "creating", "cancelling"}

  predicate HasId(plan: Plan) {
    "plan_id" in plan
  }

  function Status(plan: Plan): string {
    if "status" in plan then plan["status"] else ""
  }

  // ---------------------------------------------------------------- file names

  const MARK := ".tmp-"

  predicate MarkAt(s: string, i: nat) {
    i + 5 <= |s| && s[i..i + 5] == MARK
  }

  /** `name.includes('.tmp-')`. */
  predicate HasMark(s: string) {
    exists i :: 0 <= i < |s| && MarkAt(s, i)
  }

  predicate EndsWith(s: string, t: string) {
    |t| <= |s| && s[|s| - |t|..] == t
  }

  function FinalName(id: string): string {
    id + ".json"
  }

  function TempOf(name: string, suffix: string): string {
    name + (MARK + suffix)
  }

  function TempName(id: string, suffix: string): string {
    TempOf(FinalName(id), suffix)
  }

  /** A directory entry the boot load reads. */
  predicate Loadable(name: string) {
    EndsWith(name, ".json") && !HasMark(name)
  }

  /** A plan's file is read at boot exactly when its id does not contain the temp-file mark. */
  lemma FinalIsLoadable(id: string)
    ensures Loadable(FinalName(id)) <==> !HasMark(id)
  {
    var name := FinalName(id);
    assert name[|id|..] == ".json";
    if HasMark(id) {
      var i :| 0 <= i < |id| && MarkAt(id, i);
      assert name[i..i + 5] == id[i..i + 5];
      assert MarkAt(name, i);
    }
    if HasMark(name) {
      var i :| 0 <= i < |name| && MarkAt(name, i);
      MarkIsInside(id, i);
    }
  }

  lemma MarkIsInside(id: string, i: nat)
    requires MarkAt(FinalName(id), i)
    ensures MarkAt(id, i)
  {
    var name := FinalName(id);
    assert name[|id|] == '.' && name[|id| + 1] == 'j';
    assert forall p :: i <= p < i + 5 ==> name[p] == name[i..i + 5][p - i];
    assert name[i + 1] == 't';
    assert forall p :: i <= p < i + 5 && name[p] == '.' ==> p == i;
    assert i + 5 <= |id|;
    assert name[i..i + 5] == id[i..i + 5];
  }

  lemma TempIsNeverLoaded(name: string, suffix: string)
    ensures !Loadable(TempOf(name, suffix))
  {
    var temp := TempOf(name, suffix);
    assert temp[|name|..|name| + 5] == MARK;
    assert MarkAt(temp, |name|);
  }

  lemma TempIsNotFinal(id: string, suffix: string, other: string)
    requires '.' !in suffix
    ensures TempName(id, suffix) != FinalName(other)
  {
    var t := TempName(id, suffix);
    var tail := t[|t| - 5..];
    assert forall k :: 0 <= k < 5 ==> tail[k] == t[|t| - 5 + k];
    assert forall k :: 0 <= k < 5 ==> ".json"[k] != '-';
    if |suffix| >= 5 {
      assert tail[0] == suffix[|suffix| - 5];
      assert ".json"[0] == '.';
    } else {
      assert tail[4 - |suffix|] == t[|t| - |suffix| - 1] == '-';
    }
    assert tail != ".json";
    assert FinalName(other)[|FinalName(other)| - 5..] == ".json";
  }

  lemma FinalNamesDiffer(a: string, b: string)
    ensures FinalName(a) == FinalName(b) <==> a == b
  {
    if FinalName(a) == FinalName(b) {
      assert a == FinalName(a)[..|FinalName(a)| - 5] && b == FinalName(b)[..|FinalName(b)| - 5];
    }
  }

  // ---------------------------------------------------------------- the atomic write and its crash points

  datatype CrashPoint = BeforeTemp | MidTemp | AfterTemp | Completed

  /** The directory when the process dies at `at` while writing `plan` to the file `name`, or once it is written. */
  function WriteTo(disk: Disk, name: string, plan: Plan, suffix: string, at: CrashPoint): Disk {
    var temp := TempOf(name, suffix);
    match at
    case BeforeTemp => disk
    case MidTemp => disk[temp := Garbled]
    case AfterTemp => disk[temp := PlanFile(plan)]
    case Completed => (disk - {temp})[name := PlanFile(plan)]
  }

  /** A death leaves every other file alone and the file itself as it was, until the rename puts the whole record in its
      place; the temp file is not there, is partial, is whole, or is gone again. */
  lemma WhatADeathLeaves(disk: Disk, name: string, plan: Plan, suffix: string, at: CrashPoint, file: string)
    requires TempOf(name, suffix) !in disk && TempOf(name, suffix) != name
    ensures var after, temp := WriteTo(disk, name, plan, suffix, at), TempOf(name, suffix);
      && (file !in {name, temp} || (file == name && at != Completed) ==>
            (file in after <==> file in disk) && (file in disk ==> after[file] == disk[file]))
      && (at == Completed ==> name in after && after[name] == PlanFile(plan) && temp !in after)
      && (at == BeforeTemp ==> temp !in after)
      && (at == MidTemp ==> temp in after && after[temp] == Garbled)
      && (at == AfterTemp ==> temp in after && after[temp] == PlanFile(plan))
  {
  }

  /** The same for the plan's own file. */
  function Persist(disk: Disk, plan: Plan, suffix: string, at: CrashPoint): Disk
    requires HasId(plan)
  {
    WriteTo(disk, FinalName(plan["plan_id"]), plan, suffix, at)
  }

  /** Memory mirrors the directory: every plan in memory has its own file with the same record, and every file
      the boot load would read is a plan in memory. */
  ghost predicate Agree(plans: Plans, disk: Disk) {
    && (forall id <- plans :: HasId(plans[id]) && plans[id]["plan_id"] == id
          && FinalName(id) in disk && disk[FinalName(id)] == PlanFile(plans[id]))
    && (forall name <- disk :: Loads(disk, name) ==>
          disk[name].plan["plan_id"] in plans && name == FinalName(disk[name].plan["plan_id"]))
  }

  /** The boot load takes a plan from this entry. */
  predicate Loads(disk: Disk, name: string)
    requires name in disk
  {
    Loadable(name) && disk[name].PlanFile? && HasId(disk[name].plan)
  }

  /** Every file the boot load reads is named after its plan. */
  ghost predicate WellNamed(disk: Disk) {
    forall name <- disk :: Loads(disk, name) ==> name == FinalName(disk[name].plan["plan_id"])
  }

  // ---------------------------------------------------------------- the boot sweep

  /** A plan caught in a transient status is reloaded as failed; any other is reloaded as it is. */
  function Swept(plan: Plan, now: string): Plan {
    if Status(plan) in TRANSIENT
    then plan["status" := "failed"]["error" := "interrupted by restart"]["updated_at" := now]
    else plan
  }

  /** The sweep touches three fields of transient plans and nothing else; in particular the client's `surface`
      and `announced_status` ride through. */
  lemma SweepTouchesOnlyThree(plan: Plan, now: string)
    ensures Status(Swept(plan, now)) !in TRANSIENT
    ensures Status(plan) !in TRANSIENT ==> Swept(plan, now) == plan
    ensures Status(plan) in TRANSIENT ==>
              var swept := Swept(plan, now);
              && {"status", "error", "updated_at"} <= swept.Keys
              && swept["status"] == "failed" && swept["error"] == "interrupted by restart" && swept["updated_at"] == now
    ensures forall k :: k !in {"status", "error", "updated_at"} ==>
              (k in Swept(plan, now) <==> k in plan) && (k in plan ==> Swept(plan, now)[k] == plan[k])
    ensures "surface" in plan ==> Swept(plan, now)["surface"] == plan["surface"]
    ensures "announced_status" in plan ==> Swept(plan, now)["announced_status"] == plan["announced_status"]
    ensures HasId(plan) <==> HasId(Swept(plan, now))
    ensures HasId(plan) ==> Swept(plan, now)["plan_id"] == plan["plan_id"]
  {
    assert |"status"| == 6 && |"error"| == 5 && |"updated_at"| == 10 && |"failed"| == 6;
    assert |"surface"| == 7 && |"announced_status"| == 16 && |"plan_id"| == 7;
    assert |"breaking_down"| == 13 && |"grooming"| == 8 && |"creating"| == 8 && |"cancelling"| == 10;
  }

  lemma SweepTwice(plan: Plan, now: string, later: string)
    ensures Swept(Swept(plan, now), later) == Swept(plan, now)
  {
    SweepTouchesOnlyThree(plan, now);
  }

  function SweptContent(disk: Disk, name: string, now: string): Content
    requires name in disk
  {
    if Loads(disk, name) then PlanFile(Swept(disk[name].plan, now)) else disk[name]
  }

  function SweptDisk(disk: Disk, now: string): Disk {
    map name | name in disk :: SweptContent(disk, name, now)
  }

  /** The file of plan `id` is read by the boot load. */
  predicate OnDisk(disk: Disk, id: string) {
    FinalName(id) in disk && Loads(disk, FinalName(id)) && disk[FinalName(id)].plan["plan_id"] == id
  }

  /** `plans` is what the boot load makes of the directory. */
  ghost predicate LoadsTo(disk: Disk, now: string, plans: Plans) {
    && (forall id :: id in plans <==> OnDisk(disk, id))
    && forall id :: id in plans ==> plans[id] == Swept(disk[FinalName(id)].plan, now)
  }

  /** The boot load over a listing: each readable plan file in turn, a later one of the same id winning. */
  function Replayed(plans: Plans, disk: Disk, listing: seq<string>, now: string): Plans {
    if listing == [] then plans
    else
      var before, name := Replayed(plans, disk, listing[..|listing| - 1], now), listing[|listing| - 1];
      if name in disk && Loads(disk, name)
      then before[disk[name].plan["plan_id"] := Swept(disk[name].plan, now)]
      else before
  }

  ghost predicate ListingOf(disk: Disk, listing: seq<string>) {
    (forall name :: name in listing <==> name in disk) && forall i, j :: 0 <= i < j < |listing| ==> listing[i] != listing[j]
  }

  lemma SweptAgain(disk: Disk, now: string, later: string, name: string)
    requires name in disk
    ensures Loads(SweptDisk(disk, now), name) <==> Loads(disk, name)
    ensures SweptContent(SweptDisk(disk, now), name, later) == SweptContent(disk, name, now)
    ensures Loads(disk, name) ==>
              && SweptDisk(disk, now)[name].plan["plan_id"] == disk[name].plan["plan_id"]
              && Swept(SweptDisk(disk, now)[name].plan, later) == Swept(disk[name].plan, now)
  {
    if disk[name].PlanFile? {
      SweepTouchesOnlyThree(disk[name].plan, now);
      SweepTwice(disk[name].plan, now, later);
    }
  }

  /** Loading is idempotent on any directory: a second boot finds the same plans and rewrites nothing. */
  lemma {:induction false} LoadIsIdempotent(plans: Plans, disk: Disk, listing: seq<string>, now: string, later: string)
    ensures Replayed(plans, SweptDisk(disk, now), listing, later) == Replayed(plans, disk, listing, now)
    ensures SweptDisk(SweptDisk(disk, now), later) == SweptDisk(disk, now)
    decreases |listing|
  {
    forall name | name in disk
      ensures SweptContent(SweptDisk(disk, now), name, later) == SweptContent(disk, name, now)
    {
      SweptAgain(disk, now, later, name);
    }
    if listing != [] {
      LoadIsIdempotent(plans, disk, listing[..|listing| - 1], now, later);
      var name := listing[|listing| - 1];
      if name in disk { SweptAgain(disk, now, later, name); }
    }
  }

  lemma {:induction false} ReplayedSoFar(disk: Disk, listing: seq<string>, now: string)
    requires WellNamed(disk) && forall name <- listing :: name in disk
    ensures var plans := Replayed(map[], disk, listing, now);
      && (forall id :: id in plans <==> OnDisk(disk, id) && FinalName(id) in listing)
      && forall id <- plans :: plans[id] == Swept(disk[FinalName(id)].plan, now)
    decreases |listing|
  {
    if listing != [] {
      var front, name := listing[..|listing| - 1], listing[|listing| - 1];
      assert listing == front + [name];
      ReplayedSoFar(disk, front, now);
      forall id | FinalName(id) == name && Loads(disk, name) ensures id == disk[name].plan["plan_id"] {
        FinalNamesDiffer(id, disk[name].plan["plan_id"]);
      }
    }
  }

  /** Where every file is named after its plan, the listing's order does not matter: each plan on disk is loaded
      from its own file. */
  lemma LoadIgnoresOrder(disk: Disk, listing: seq<string>, now: string)
    requires WellNamed(disk) && ListingOf(disk, listing)
    ensures LoadsTo(disk, now, Replayed(map[], disk, listing, now))
  {
    ReplayedSoFar(disk, listing, now);
  }

  /** A boot over such a directory leaves memory and directory in agreement. */
  lemma LoadAgrees(disk: Disk, now: string, plans: Plans)
    requires WellNamed(disk) && LoadsTo(disk, now, plans)
    ensures Agree(plans, SweptDisk(disk, now))
  {
    forall name | name in disk ensures Loads(SweptDisk(disk, now), name) <==> Loads(disk, name) {
      SweptAgain(disk, now, now, name);
    }
    forall id | id in plans ensures HasId(plans[id]) && plans[id]["plan_id"] == id {
      SweepTouchesOnlyThree(disk[FinalName(id)].plan, now);
    }
    forall name | name in disk && Loads(disk, name)
      ensures SweptDisk(disk, now)[name].plan["plan_id"] == disk[name].plan["plan_id"]
    {
      SweptAgain(disk, now, now, name);
    }
  }

  // ---------------------------------------------------------------- crashes

  /** A crash at any point of a write leaves the file of every other plan alone, and the written one old or new. */
  lemma CrashKeepsFiles(disk: Disk, next: Plan, suffix: string, at: CrashPoint, id: string)
    requires HasId(next) && '.' !in suffix
    ensures var after := Persist(disk, next, suffix, at);
            var replaced := at == Completed && id == next["plan_id"];
      && (FinalName(id) in after <==> FinalName(id) in disk || replaced)
      && (FinalName(id) in after ==> after[FinalName(id)] == if replaced then PlanFile(next) else disk[FinalName(id)])
  {
    TempIsNotFinal(next["plan_id"], suffix, id);
    FinalNamesDiffer(id, next["plan_id"]);
  }

  lemma CrashedLoad(plans: Plans, disk: Disk, next: Plan, suffix: string, at: CrashPoint, now: string, after: Plans, id: string)
    requires Agree(plans, disk) && HasId(next) && '.' !in suffix
    requires LoadsTo(Persist(disk, next, suffix, at), now, after)
    ensures id in after <==> !HasMark(id) && (id in plans || (at == Completed && id == next["plan_id"]))
    ensures id in after ==>
              after[id] == Swept(if at == Completed && id == next["plan_id"] then next else plans[id], now)
  {
    CrashKeepsFiles(disk, next, suffix, at, id);
    FinalIsLoadable(id);
    var disk' := Persist(disk, next, suffix, at);
    if id in plans {
      assert disk[FinalName(id)] == PlanFile(plans[id]);
    } else if FinalName(id) in disk && Loads(disk, FinalName(id)) {
      FinalNamesDiffer(id, disk[FinalName(id)].plan["plan_id"]);
    }
  }

  lemma CrashLeavesWellNamed(plans: Plans, disk: Disk, next: Plan, suffix: string, at: CrashPoint)
    requires Agree(plans, disk) && HasId(next)
    ensures WellNamed(Persist(disk, next, suffix, at))
  {
    TempIsNeverLoaded(FinalName(next["plan_id"]), suffix);
  }

  /** After a crash between any two file steps of a write, a boot load in any listing order yields for every plan
      the old record or, exactly when the write had completed, the new one, swept; plans whose id carries the
      temp-file mark are the only ones it does not see. */
  lemma CrashIsAtomic(plans: Plans, disk: Disk, next: Plan, suffix: string, at: CrashPoint, listing: seq<string>, now: string, id: string)
    requires Agree(plans, disk) && HasId(next) && '.' !in suffix
    requires ListingOf(Persist(disk, next, suffix, at), listing)
    ensures var after := Replayed(map[], Persist(disk, next, suffix, at), listing, now);
      && (id in after <==> !HasMark(id) && (id in plans || (at == Completed && id == next["plan_id"])))
      && (id in after ==> after[id] == Swept(if at == Completed && id == next["plan_id"] then next else plans[id], now))
  {
    var disk' := Persist(disk, next, suffix, at);
    CrashLeavesWellNamed(plans, disk, next, suffix, at);
    LoadIgnoresOrder(disk', listing, now);
    CrashedLoad(plans, disk, next, suffix, at, now, Replayed(map[], disk', listing, now), id);
  }

  /** The directory when the process dies during a boot sweep that has rewritten the entries `done`. */
  function PartlySwept(disk: Disk, done: set<string>, now: string): Disk {
    map name | name in disk :: if name in done then SweptContent(disk, name, now) else disk[name]
  }

  /** The directory when the process dies at `at` while that sweep rewrites the file `name` with `next`; dying
      between two files is `BeforeTemp`. */
  function SweepCrash(disk: Disk, done: set<string>, now: string, name: string, next: Plan, suffix: string, at: CrashPoint): Disk {
    WriteTo(PartlySwept(disk, done, now), name, next, suffix, at)
  }

  /** The sweep is writing the file `name`, or is between two files. */
  ghost predicate Sweeping(disk: Disk, now: string, name: string, next: Plan, at: CrashPoint) {
    at != BeforeTemp ==> name in disk && Loads(disk, name) && next == Swept(disk[name].plan, now)
  }

  /** An entry the boot load reads is there after the crash exactly if it was before, rewritten or not. */
  lemma SweepCrashKeepsFiles(disk: Disk, done: set<string>, now: string, name: string, next: Plan, suffix: string,
                             at: CrashPoint, file: string)
    requires Sweeping(disk, now, name, next, at) && Loadable(file)
    ensures var after := SweepCrash(disk, done, now, name, next, suffix, at);
      && (file in after <==> file in disk)
      && (file in disk ==> after[file] == if file in done || (at == Completed && file == name)
                                          then SweptContent(disk, file, now) else disk[file])
  {
    TempIsNeverLoaded(name, suffix);
  }

  lemma SweepCrashLoads(disk: Disk, done: set<string>, now: string, name: string, next: Plan, suffix: string,
                        at: CrashPoint, file: string)
    requires Sweeping(disk, now, name, next, at)
    ensures var after := SweepCrash(disk, done, now, name, next, suffix, at);
      && (file in after && Loads(after, file) <==> file in disk && Loads(disk, file))
      && (file in after && Loads(after, file) ==> after[file].plan["plan_id"] == disk[file].plan["plan_id"])
  {
    if Loadable(file) {
      SweepCrashKeepsFiles(disk, done, now, name, next, suffix, at, file);
      if file in disk && disk[file].PlanFile? { SweepTouchesOnlyThree(disk[file].plan, now); }
    }
  }

  /** A boot that dies anywhere, between two files or between the temp write and the rename of one, loses nothing:
      the next boot, in any listing order, finds every plan, swept by one of the two. */
  lemma CrashDuringSweep(disk: Disk, done: set<string>, now: string, name: string, next: Plan, suffix: string,
                         at: CrashPoint, listing: seq<string>, later: string, id: string)
    requires WellNamed(disk) && Sweeping(disk, now, name, next, at)
    requires ListingOf(SweepCrash(disk, done, now, name, next, suffix, at), listing)
    ensures var after := Replayed(map[], SweepCrash(disk, done, now, name, next, suffix, at), listing, later);
            var rewritten := FinalName(id) in done || (at == Completed && FinalName(id) == name);
      && (id in after <==> OnDisk(disk, id))
      && (id in after ==> after[id] == Swept(disk[FinalName(id)].plan, if rewritten then now else later))
  {
    var crashed := SweepCrash(disk, done, now, name, next, suffix, at);
    forall file | file in crashed && Loads(crashed, file) ensures file == FinalName(crashed[file].plan["plan_id"]) {
      SweepCrashLoads(disk, done, now, name, next, suffix, at, file);
    }
    LoadIgnoresOrder(crashed, listing, later);
    SweepCrashLoads(disk, done, now, name, next, suffix, at, FinalName(id));
    if OnDisk(disk, id) {
      SweepCrashKeepsFiles(disk, done, now, name, next, suffix, at, FinalName(id));
      SweepTwice(disk[FinalName(id)].plan, now, later);
    }
  }

  // ---------------------------------------------------------------- the store

  datatype TransitionResult = Moved(plan: Plan) | NotFound | Conflict(status: string)

  class State {
    var plans: Plans
    var disk: Disk

    constructor (disk: Disk)
      ensures plans == map[] && this.disk == disk
    {
      plans := map[];
      this.disk := disk;
    }

    /** `atomicWriteJson`: temp file, then rename. */
    method AtomicWriteJson(name: string, plan: Plan, suffix: string)
      modifies this`disk
      ensures disk == WriteTo(old(disk), name, plan, suffix, Completed)
      ensures disk == (old(disk) - {TempOf(name, suffix)})[name := PlanFile(plan)]
    {
      var temp := TempOf(name, suffix);
      disk := disk[temp := PlanFile(plan)];
      disk := (disk - {temp})[name := disk[temp]];
    }

    method Create(plan: Plan, suffix: string)
      requires HasId(plan)
      modifies this
      ensures plans == old(plans)[plan["plan_id"] := plan]
      ensures disk == Persist(old(disk), plan, suffix, Completed)
      ensures Store(plans, disk) == StoreStep(old(Store(plans, disk)), CreateOp(plan), suffix)
    {
      plans := plans[plan["plan_id"] := plan];
      AtomicWriteJson(FinalName(plan["plan_id"]), plan, suffix);
    }

    method Update(id: string, patch: Plan, suffix: string) returns (r: Option<Plan>)
      requires id in plans ==> HasId(plans[id])
      modifies this
      ensures id !in old(plans) ==> r.None? && plans == old(plans) && disk == old(disk)
      ensures id in old(plans) ==>
                && r == Some(old(plans)[id] + patch)
                && plans == old(plans)[id := r.value]
                && disk == Persist(old(disk), r.value, suffix, Completed)
      ensures Store(plans, disk) == StoreStep(old(Store(plans, disk)), UpdateOp(id, patch), suffix)
    {
      if id !in plans {
        return None;
      }
      var next := plans[id] + patch;
      plans := plans[id := next];
      AtomicWriteJson(FinalName(next["plan_id"]), next, suffix);
      return Some(next);
    }

    /** `transition`: compare-and-swap on the status. */
    method Transition(id: string, expected: seq<string>, patch: Plan, suffix: string) returns (r: TransitionResult)
      requires id in plans ==> HasId(plans[id])
      modifies this
      ensures r.NotFound? <==> id !in old(plans)
      ensures r.Moved? <==> id in old(plans) && Status(old(plans)[id]) in expected
      ensures r.Moved? ==>
                && r.plan == old(plans)[id] + patch
                && plans == old(plans)[id := r.plan]
                && disk == Persist(old(disk), r.plan, suffix, Completed)
      ensures r.Conflict? ==> r.status == Status(old(plans)[id])
      ensures !r.Moved? ==> plans == old(plans) && disk == old(disk)
      ensures r == TransitionOutcome(old(plans), id, expected, patch)
      ensures Store(plans, disk) == StoreStep(old(Store(plans, disk)), TransitionOp(id, expected, patch), suffix)
    {
      if id !in plans {
        return NotFound;
      }
      var existing := plans[id];
      if Status(existing) !in expected {
        return Conflict(Status(existing));
      }
      var next := existing + patch;
      plans := plans[id := next];
      AtomicWriteJson(FinalName(next["plan_id"]), next, suffix);
      return Moved(next);
    }

    /** `load`: replays the directory in the order it is listed, and sweeps interrupted plans. */
    method Load(listing: seq<string>, now: string, suffix: string)
      requires ListingOf(disk, listing) && FreshSuffix(disk, suffix)
      modifies this
      ensures plans == Replayed(old(plans), old(disk), listing, now)
      ensures disk == SweptDisk(old(disk), now)
    {
      ghost var start := disk;
      ghost var was := plans;
      NothingSwept(start, now);
      for i := 0 to |listing|
        invariant disk == PartlySwept(start, Names(listing, i), now)
        invariant plans == Replayed(was, start, listing[..i], now)
      {
        NextName(start, listing, i);
        ReplayNext(was, start, listing, i, now);
        LoadFile(listing[i], now, suffix, start, Names(listing, i));
      }
      AllSwept(start, listing, now);
      assert listing[..|listing|] == listing;
    }

    /** One directory entry of the boot load. */
    method LoadFile(name: string, now: string, suffix: string, ghost start: Disk, ghost done: set<string>)
      requires disk == PartlySwept(start, done, now) && FreshSuffix(start, suffix)
      requires name in start && name !in done
      modifies this
      ensures disk == PartlySwept(start, done + {name}, now)
      ensures plans == if Loads(start, name)
                       then old(plans)[start[name].plan["plan_id"] := Swept(start[name].plan, now)]
                       else old(plans)
    {
      assert disk[name] == start[name];
      assert PartlySwept(start, done + {name}, now) == disk[name := SweptContent(start, name, now)];
      if !Loads(disk, name) {
        return;
      }
      var plan := disk[name].plan;
      SweepTouchesOnlyThree(plan, now);
      if Status(plan) in TRANSIENT {
        plan := Swept(plan, now);
        assert TempOf(name, suffix) !in disk;
        AtomicWriteJson(name, plan, suffix);
        assert disk == old(disk)[name := PlanFile(plan)];
      }
      plans := plans[plan["plan_id"] := plan];
    }
  }

  /** The first `n` names of a listing. */
  ghost function Names(listing: seq<string>, n: nat): set<string>
    requires n <= |listing|
  {
    set name | name in listing[..n]
  }

  lemma NextName(disk: Disk, listing: seq<string>, i: nat)
    requires ListingOf(disk, listing) && i < |listing|
    ensures listing[i] in disk && listing[i] !in Names(listing, i)
    ensures Names(listing, i + 1) == Names(listing, i) + {listing[i]}
  {
    assert listing[..i + 1] == listing[..i] + [listing[i]];
    assert listing[i] in listing;
  }

  lemma ReplayNext(plans: Plans, disk: Disk, listing: seq<string>, i: nat, now: string)
    requires i < |listing| && listing[i] in disk
    ensures var before, name := Replayed(plans, disk, listing[..i], now), listing[i];
      Replayed(plans, disk, listing[..i + 1], now) ==
        if Loads(disk, name) then before[disk[name].plan["plan_id"] := Swept(disk[name].plan, now)] else before
  {
    assert listing[..i + 1][..i] == listing[..i];
  }

  lemma NothingSwept(disk: Disk, now: string)
    ensures PartlySwept(disk, {}, now) == disk
  {
  }

  lemma AllSwept(disk: Disk, listing: seq<string>, now: string)
    requires ListingOf(disk, listing)
    ensures PartlySwept(disk, Names(listing, |listing|), now) == SweptDisk(disk, now)
  {
    assert listing[..|listing|] == listing;
  }

  /** The suffix of the temp files is not yet in use. */
  ghost predicate FreshSuffix(disk: Disk, suffix: string) {
    forall name :: TempOf(name, suffix) !in disk
  }

  /** Creating a plan, or writing a patched one, keeps memory and directory in agreement exactly when the record
      written is the one filed in memory under its own id. */
  lemma WriteKeepsAgreement(plans: Plans, disk: Disk, id: string, next: Plan, suffix: string)
    requires Agree(plans, disk) && HasId(next) && '.' !in suffix
    ensures Agree(plans[id := next], Persist(disk, next, suffix, Completed)) <==> next["plan_id"] == id
  {
    var plans', disk' := plans[id := next], Persist(disk, next, suffix, Completed);
    assert id in plans' && plans'[id] == next;
    if next["plan_id"] == id {
      forall x | x in plans'
        ensures HasId(plans'[x]) && plans'[x]["plan_id"] == x && FinalName(x) in disk' && disk'[FinalName(x)] == PlanFile(plans'[x])
      {
        CrashKeepsFiles(disk, next, suffix, Completed, x);
      }
      forall name | name in disk' && Loads(disk', name)
        ensures disk'[name].plan["plan_id"] in plans' && name == FinalName(disk'[name].plan["plan_id"])
      {
        TempIsNeverLoaded(FinalName(id), suffix);
        if name != FinalName(id) {
          assert name in disk && Loads(disk, name);
        }
      }
    }
  }

  // ---------------------------------------------------------------- compare-and-swap

  function TransitionOutcome(plans: Plans, id: string, expected: seq<string>, patch: Plan): TransitionResult {
    if id !in plans then NotFound
    else if Status(plans[id]) !in expected then Conflict(Status(plans[id]))
    else Moved(plans[id] + patch)
  }

  function AfterTransition(plans: Plans, id: string, expected: seq<string>, patch: Plan): Plans {
    var r := TransitionOutcome(plans, id, expected, patch);
    if r.Moved? then plans[id := r.plan] else plans
  }

  datatype Op =
    | CreateOp(plan: Plan)
    | UpdateOp(id: string, patch: Plan)
    | TransitionOp(id: string, expected: seq<string>, patch: Plan)

  function Apply(plans: Plans, op: Op): Plans {
    match op
    case CreateOp(plan) => if HasId(plan) then plans[plan["plan_id"] := plan] else plans
    case UpdateOp(id, patch) => if id in plans then plans[id := plans[id] + patch] else plans
    case TransitionOp(id, expected, patch) => AfterTransition(plans, id, expected, patch)
  }

  function ApplyAll(plans: Plans, ops: seq<Op>): Plans {
    if ops == [] then plans else Apply(ApplyAll(plans, ops[..|ops| - 1]), ops[|ops| - 1])
  }

  /** The record an operation writes, under the id it is filed in memory, if it writes one. */
  function Written(plans: Plans, op: Op): Option<(string, Plan)> {
    match op
    case CreateOp(plan) => if HasId(plan) then Some((plan["plan_id"], plan)) else None
    case UpdateOp(id, patch) => if id in plans then Some((id, plans[id] + patch)) else None
    case TransitionOp(id, expected, patch) =>
      var r := TransitionOutcome(plans, id, expected, patch);
      if r.Moved? then Some((id, r.plan)) else None
  }

  datatype Store = Store(plans: Plans, disk: Disk)

  /** One operation on memory and directory together, its temp file ending in `suffix`. */
  function StoreStep(st: Store, op: Op, suffix: string): Store {
    var w := Written(st.plans, op);
    if w.None? || !HasId(w.value.1) then st
    else Store(Apply(st.plans, op), Persist(st.disk, w.value.1, suffix, Completed))
  }

  function StoreRun(st: Store, ops: seq<(Op, string)>): Store {
    if ops == [] then st
    else
      var (op, suffix) := ops[|ops| - 1];
      StoreStep(StoreRun(st, ops[..|ops| - 1]), op, suffix)
  }

  /** The operation does not patch a plan's id into another one. */
  predicate KeepsId(op: Op) {
    match op
    case CreateOp(plan) => HasId(plan)
    case UpdateOp(id, patch) => HasId(patch) ==> patch["plan_id"] == id
    case TransitionOp(id, expected, patch) => HasId(patch) ==> patch["plan_id"] == id
  }

  lemma StepKeepsAgreement(st: Store, op: Op, suffix: string)
    requires Agree(st.plans, st.disk) && KeepsId(op) && '.' !in suffix
    ensures var st' := StoreStep(st, op, suffix); Agree(st'.plans, st'.disk)
  {
    var w := Written(st.plans, op);
    if w.Some? {
      var (id, next) := w.value;
      assert HasId(next) && next["plan_id"] == id;
      assert Apply(st.plans, op) == st.plans[id := next];
      WriteKeepsAgreement(st.plans, st.disk, id, next, suffix);
    }
  }

  /** From a boot on, memory and directory agree after every operation of every run that renames no plan. */
  lemma {:induction false} RunKeepsAgreement(st: Store, ops: seq<(Op, string)>)
    requires Agree(st.plans, st.disk)
    requires forall i :: 0 <= i < |ops| ==> KeepsId(ops[i].0) && '.' !in ops[i].1
    ensures Agree(StoreRun(st, ops).plans, StoreRun(st, ops).disk)
    decreases |ops|
  {
    if ops != [] {
      RunKeepsAgreement(st, ops[..|ops| - 1]);
      StepKeepsAgreement(StoreRun(st, ops[..|ops| - 1]), ops[|ops| - 1].0, ops[|ops| - 1].1);
    }
  }

  /** The plan exists and its status is one of `from`. */
  predicate Eligible(plans: Plans, id: string, from: seq<string>) {
    id in plans && Status(plans[id]) in from
  }

  /** The compare decides: the transition function moves exactly an eligible plan, to the patched record. */
  lemma MovesIffEligible(plans: Plans, id: string, expected: seq<string>, patch: Plan)
    ensures var r := TransitionOutcome(plans, id, expected, patch);
      && (r.Moved? <==> Eligible(plans, id, expected))
      && (r.NotFound? <==> id !in plans)
      && (r.Moved? ==> r.plan == plans[id] + patch && AfterTransition(plans, id, expected, patch) == plans[id := r.plan])
      && (r.Conflict? ==> r.status == Status(plans[id]))
      && (!r.Moved? ==> AfterTransition(plans, id, expected, patch) == plans)
  {
  }

  function OpsOf(ops: seq<(Op, string)>): (r: seq<Op>)
    ensures |r| == |ops| && forall i :: 0 <= i < |ops| ==> r[i] == ops[i].0
  {
    seq(|ops|, i requires 0 <= i < |ops| => ops[i].0)
  }

  /** Where memory and directory agree, a run that renames no plan leaves in memory what its operations make of it. */
  lemma {:induction false} RunIsApplied(st: Store, ops: seq<(Op, string)>)
    requires Agree(st.plans, st.disk)
    requires forall i :: 0 <= i < |ops| ==> KeepsId(ops[i].0) && '.' !in ops[i].1
    ensures StoreRun(st, ops).plans == ApplyAll(st.plans, OpsOf(ops))
    decreases |ops|
  {
    if ops != [] {
      var front, last := ops[..|ops| - 1], ops[|ops| - 1];
      RunIsApplied(st, front);
      RunKeepsAgreement(st, front);
      assert OpsOf(ops)[..|ops| - 1] == OpsOf(front);
      StepIsApplied(StoreRun(st, front), last.0, last.1);
    }
  }

  lemma StepIsApplied(st: Store, op: Op, suffix: string)
    requires Agree(st.plans, st.disk) && KeepsId(op)
    ensures StoreStep(st, op, suffix).plans == Apply(st.plans, op)
  {
    var w := Written(st.plans, op);
    if w.Some? { assert HasId(w.value.1); }
  }

  lemma {:induction false} RunJoins(st: Store, a: seq<(Op, string)>, b: seq<(Op, string)>)
    ensures StoreRun(st, a + b) == StoreRun(StoreRun(st, a), b)
    decreases |b|
  {
    if b == [] {
      assert a + b == a;
    } else {
      var front, last := b[..|b| - 1], b[|b| - 1];
      RunJoins(st, a, front);
      assert (a + b)[..|a + b| - 1] == a + front && (a + b)[|a + b| - 1] == last;
    }
  }

  /** A transition that meets its plan in a status it does not expect, or does not find it, might as well not have
      been called: the run, memory and directory, ends as it does without it. */
  lemma RefusedIsSkipped(st: Store, ops: seq<(Op, string)>, k: nat)
    requires k < |ops| && ops[k].0.TransitionOp?
    requires !Eligible(StoreRun(st, ops[..k]).plans, ops[k].0.id, ops[k].0.expected)
    ensures StoreRun(st, ops) == StoreRun(st, ops[..k] + ops[k + 1..])
  {
    var before, op := ops[..k], ops[k];
    assert ops == before + [op] + ops[k + 1..];
    RunJoins(st, before + [op], ops[k + 1..]);
    RunJoins(st, before, ops[k + 1..]);
    assert (before + [op])[..k] == before;
    assert StoreStep(StoreRun(st, before), op.0, op.1) == StoreRun(st, before);
  }

  /** Operation `k` is a transition on `id` that is answered `Moved`. */
  ghost predicate Wins(plans: Plans, ops: seq<Op>, k: nat, id: string)
    requires k < |ops|
  {
    && ops[k].TransitionOp? && ops[k].id == id
    && TransitionOutcome(ApplyAll(plans, ops[..k]), id, ops[k].expected, ops[k].patch).Moved?
  }

  /** It wins, and moves the plan to a status outside `from`. */
  ghost predicate WinsOutOf(plans: Plans, ops: seq<Op>, k: nat, id: string, from: seq<string>)
    requires k < |ops|
  {
    Wins(plans, ops, k, id) && "status" in ops[k].patch && ops[k].patch["status"] !in from
  }

  lemma WinnerLeaves(plans: Plans, ops: seq<Op>, k: nat, id: string, from: seq<string>)
    requires k < |ops| && WinsOutOf(plans, ops, k, id, from)
    ensures !Eligible(ApplyAll(plans, ops[..k + 1]), id, from)
  {
    assert ops[..k + 1][..k] == ops[..k];
  }

  /** Some operation between `i` and `j` makes the plan eligible again. */
  ghost predicate ReturnsBetween(plans: Plans, ops: seq<Op>, i: nat, j: nat, id: string, from: seq<string>)
    requires i < j < |ops|
  {
    exists k :: i < k < j
      && !Eligible(ApplyAll(plans, ops[..k]), id, from) && Eligible(ApplyAll(plans, ops[..k + 1]), id, from)
  }

  /** Of two racing transitions only one wins: if the first moves the plan to a status the second does not expect
      and both are answered `Moved`, some operation between them has brought an expected status back. */
  lemma OnlyOneWinner(plans: Plans, ops: seq<Op>, i: nat, j: nat, id: string)
    requires i < j < |ops| && Wins(plans, ops, j, id)
    requires WinsOutOf(plans, ops, i, id, ops[j].expected)
    ensures ReturnsBetween(plans, ops, i, j, id, ops[j].expected)
  {
    MovesIffEligible(ApplyAll(plans, ops[..j]), id, ops[j].expected, ops[j].patch);
    OnlyOneLeaves(plans, ops, i, j, id, ops[j].expected);
  }

  /** The same for any statuses: a plan moved out of them and found in them later has been brought back. */
  lemma OnlyOneLeaves(plans: Plans, ops: seq<Op>, i: nat, j: nat, id: string, from: seq<string>)
    requires i < j < |ops| && WinsOutOf(plans, ops, i, id, from) && Eligible(ApplyAll(plans, ops[..j]), id, from)
    ensures ReturnsBetween(plans, ops, i, j, id, from)
  {
    WinnerLeaves(plans, ops, i, id, from);
    FindReturn(plans, ops, i + 1, j, id, from);
  }

  lemma {:induction false} FindReturn(plans: Plans, ops: seq<Op>, a: nat, b: nat, id: string, from: seq<string>)
    requires a <= b <= |ops|
    requires !Eligible(ApplyAll(plans, ops[..a]), id, from) && Eligible(ApplyAll(plans, ops[..b]), id, from)
    ensures exists k :: a <= k < b
              && !Eligible(ApplyAll(plans, ops[..k]), id, from) && Eligible(ApplyAll(plans, ops[..k + 1]), id, from)
    decreases b - a
  {
    if Eligible(ApplyAll(plans, ops[..a + 1]), id, from) {
      assert a <= a < b;
    } else {
      FindReturn(plans, ops, a + 1, b, id, from);
    }
  }
}
