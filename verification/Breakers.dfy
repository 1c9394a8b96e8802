/** The daily spend ledger: the promise-chain mutex around it, the sticky telemetry lock, and the daily cap.
    Money is in nanodollars, days are numbered, and a file that is absent reads as a fresh day. */
module Breakers {
  import opened Wrappers

  const MAX_SAFE: int := 9007199254740991

  predicate SafeAmount(n: int) {
    0 <= n <= MAX_SAFE
  }

  datatype Ledger = Amount(nanos: nat) | Corrupt
  /** The lock file: absent, readable with a reason, present but unreadable, or readable without a reason. */
  datatype LockFile = NoFile | WithReason | Unreadable | WithoutReason
  /** The head of the promise chain: no link running, a link between its read and its write, or a rejected link
      whose catch handler has not run yet. */
  datatype Link = Idle | Holding(cost: nat, day: nat, newTotal: nat) | Settling
  datatype Charge = Charge(day: nat, cost: nat)

  /** One process and its files; `running` counts admitted engine calls that have not reported a cost yet. */
  datatype State = State(
    memLocked: bool,
    lockFile: LockFile,
    ledgers: map<nat, Ledger>,
    today: nat,
    queue: seq<nat>,
    link: Link,
    running: nat,
    failed: bool,
    fulfilled: seq<Charge>)

  /** What can happen; `persisted` says whether a lock, if one is taken, also reaches its file. */
  datatype Event =
    | Check(hard: int, persisted: bool)
    | Record(cost: int, persisted: bool)
    | Start(persisted: bool)
    | Write(ok: bool)
    | Settle(persisted: bool)
    | LockNow(persisted: bool)
    | Tick
    | Restart

  function Read(ledgers: map<nat, Ledger>, day: nat): Ledger {
    if day in ledgers then ledgers[day] else Amount(0)
  }

  predicate FileLocks(f: LockFile) {
    f.WithReason? || f.Unreadable?
  }

  predicate Locked(s: State) {
    s.memLocked || FileLocks(s.lockFile)
  }

  function Lock(s: State, persisted: bool): State {
    s.(memLocked := true, lockFile := if persisted then WithReason else s.lockFile)
  }

  predicate Admits(s: State, hard: int) {
    !Locked(s) && Read(s.ledgers, s.today).Amount? && Read(s.ledgers, s.today).nanos < hard
  }

  /** The next link up to its write: the lock test, the read and the sum. */
  function NextLink(s: State, persisted: bool): State
    requires s.queue != []
  {
    var s' := s.(queue := s.queue[1..]);
    if Locked(s) then s'.(memLocked := true, link := Settling, failed := true)
    else
      match Read(s.ledgers, s.today)
      case Corrupt => Lock(s', persisted).(link := Settling, failed := true)
      case Amount(total) =>
        if !SafeAmount(total + s.queue[0]) then Lock(s', persisted).(link := Settling, failed := true)
        else s'.(link := Holding(s.queue[0], s.today, total + s.queue[0]))
  }

  /** The transition of one event; an event that is not enabled changes nothing. */
  function Step(s: State, e: Event): State {
    match e
    case Check(hard, persisted) =>
      if Locked(s) then s.(memLocked := true)
      else if Read(s.ledgers, s.today).Corrupt? then Lock(s, persisted)
      else if Admits(s, hard) then s.(running := s.running + 1)
      else s
    case Record(cost, persisted) =>
      var s' := s.(running := if s.running > 0 then s.running - 1 else 0);
      if !SafeAmount(cost) then Lock(s', persisted) else s'.(queue := s.queue + [cost])
    case Start(persisted) =>
      if s.link != Idle || s.queue == [] then s else NextLink(s, persisted)
    case Write(ok) =>
      if !s.link.Holding? then s
      else if ok then
        s.(ledgers := s.ledgers[s.today := Amount(s.link.newTotal)],
           fulfilled := s.fulfilled + [Charge(s.today, s.link.cost)],
           link := Idle)
      else s.(link := Settling, failed := true)
    case Settle(persisted) =>
      if s.link != Settling then s else Lock(s, persisted).(link := Idle)
    case LockNow(persisted) => Lock(s, persisted)
    case Tick => s.(today := s.today + 1)
    case Restart => s.(memLocked := false, queue := [], link := Idle, running := 0, failed := false)
  }

  function Run(s: State, events: seq<Event>): State {
    if events == [] then s else Step(Run(s, events[..|events| - 1]), events[|events| - 1])
  }

  // ---------------------------------------------------------------- the module's state and functions

  class SpendBreaker {
    var memLocked: bool
    var lockFile: LockFile
    var ledgers: map<nat, Ledger>
    var today: nat
    var queue: seq<nat>
    var link: Link
    var running: nat
    ghost var failed: bool
    ghost var fulfilled: seq<Charge>

    constructor (lockFile: LockFile, ledgers: map<nat, Ledger>, today: nat)
      ensures Abs() == Boot(lockFile, ledgers, today)
    {
      this.memLocked, this.lockFile, this.ledgers, this.today := false, lockFile, ledgers, today;
      queue, link, running, failed, fulfilled := [], Idle, 0, false, [];
    }

    ghost function Abs(): State
      reads this
    {
      State(memLocked, lockFile, ledgers, today, queue, link, running, failed, fulfilled)
    }

    /** `lockReason`: the memory first, then the file, whose answer it remembers. */
    method LockReason() returns (locked: bool)
      modifies this`memLocked
      ensures locked == old(Locked(Abs())) && memLocked == locked
      ensures locked <==> old(memLocked) || lockFile == WithReason || lockFile == Unreadable
    {
      if memLocked {
        return true;
      }
      if FileLocks(lockFile) {
        memLocked := true;
        return true;
      }
      return false;
    }

    method LockCostTelemetry(persisted: bool)
      modifies this`memLocked, this`lockFile
      ensures Abs() == Lock(old(Abs()), persisted) == Step(old(Abs()), LockNow(persisted))
    {
      memLocked := true;
      if persisted {
        lockFile := WithReason;
      }
    }

    /** `checkDaily`: refuses under a lock, on a corrupt ledger (which it locks on), or at the hard cap. */
    method CheckDaily(hard: int, persisted: bool) returns (blocked: bool)
      modifies this
      ensures Abs() == Step(old(Abs()), Check(hard, persisted))
      ensures blocked <==> !old(Admits(Abs(), hard))
      ensures !blocked <==>
                && !old(memLocked) && old(lockFile) in {NoFile, WithoutReason}
                && !(today in ledgers && ledgers[today].Corrupt?)
                && (if today in ledgers then ledgers[today].nanos else 0) < hard
    {
      var locked := LockReason();
      if locked {
        return true;
      }
      var daily := Read(ledgers, today);
      if daily.Corrupt? {
        LockCostTelemetry(persisted);
        return true;
      }
      if daily.nanos >= hard {
        return true;
      }
      running := running + 1;
      return false;
    }

    /** `recordSpendNanos` up to the point where its link joins the chain; an invalid cost is rejected at once. */
    method RecordSpendNanos(cost: int, persisted: bool) returns (queued: bool)
      modifies this
      ensures Abs() == Step(old(Abs()), Record(cost, persisted))
      ensures queued <==> SafeAmount(cost)
    {
      if running > 0 {
        running := running - 1;
      }
      if !SafeAmount(cost) {
        LockCostTelemetry(persisted);
        return false;
      }
      queue := queue + [cost];
      return true;
    }

    /** The chain starts its next link: the lock test, the read and the sum. */
    method StartLink(persisted: bool)
      requires link == Idle && queue != []
      modifies this
      ensures Abs() == Step(old(Abs()), Start(persisted))
    {
      var cost := queue[0];
      queue := queue[1..];
      var locked := LockReason();
      if locked {
        link, failed := Settling, true;
        return;
      }
      var current := Read(ledgers, today);
      if current.Corrupt? {
        LockCostTelemetry(persisted);
        link, failed := Settling, true;
        return;
      }
      var total := current.nanos + cost;
      if !SafeAmount(total) {
        LockCostTelemetry(persisted);
        link, failed := Settling, true;
        return;
      }
      link := Holding(cost, today, total);
    }

    /** The link's write, to the file of the day the clock shows now; `ok` is false when the file system throws. */
    method WriteLink(ok: bool)
      requires link.Holding?
      modifies this
      ensures Abs() == Step(old(Abs()), Write(ok))
    {
      if ok {
        ledgers := ledgers[today := Amount(link.newTotal)];
        fulfilled := fulfilled + [Charge(today, link.cost)];
        link := Idle;
      } else {
        link, failed := Settling, true;
      }
    }

    /** The catch handler on the chain: locks, and leaves the chain free for the next link. */
    method SettleLink(persisted: bool)
      requires link == Settling
      modifies this
      ensures Abs() == Step(old(Abs()), Settle(persisted))
    {
      LockCostTelemetry(persisted);
      link := Idle;
    }
  }

  /** A freshly started process over what it finds on disk. */
  function Boot(lockFile: LockFile, ledgers: map<nat, Ledger>, today: nat): State {
    State(false, lockFile, ledgers, today, [], Idle, 0, false, [])
  }

  // ---------------------------------------------------------------- no lost update

  function SumOn(charges: seq<Charge>, day: nat): nat {
    SumUpTo(charges, day, |charges|)
  }

  /** What the first `n` charges add up to on that day. */
  function SumUpTo(charges: seq<Charge>, day: nat, n: nat): nat
    requires n <= |charges|
  {
    if n == 0 then 0
    else SumUpTo(charges, day, n - 1) + if charges[n - 1].day == day then charges[n - 1].cost else 0
  }

  lemma {:induction false} SumOfFront(charges: seq<Charge>, more: seq<Charge>, day: nat, n: nat)
    requires n <= |charges|
    ensures SumUpTo(charges + more, day, n) == SumUpTo(charges, day, n)
  {
    if n > 0 { SumOfFront(charges, more, day, n - 1); }
  }

  /** One more charge adds its cost to its own day and to no other. */
  lemma SumSnoc(charges: seq<Charge>, c: Charge, day: nat)
    ensures SumOn(charges + [c], day) == SumOn(charges, day) + if c.day == day then c.cost else 0
  {
    SumOfFront(charges, [c], day, |charges|);
  }

  /** Every day's ledger is its starting total plus the fulfilled charges of that day; a corrupt one is as it was. */
  ghost predicate Conserved(start: map<nat, Ledger>, s: State) {
    forall day: nat :: Read(s.ledgers, day) ==
      match Read(start, day)
      case Amount(a) => Amount(a + SumOn(s.fulfilled, day))
      case Corrupt => Corrupt
  }

  /** A link between read and write holds that day's ledger plus its own cost. */
  ghost predicate HoldsFresh(s: State) {
    s.link.Holding? ==>
      s.link.day == s.today && Read(s.ledgers, s.today).Amount?
      && s.link.newTotal == Read(s.ledgers, s.today).nanos + s.link.cost
  }

  /** The clock does not turn to the next day between a link's read and its write. */
  ghost predicate OneDayPerLink(s: State, events: seq<Event>) {
    forall i :: 0 <= i < |events| && events[i] == Tick ==> !Run(s, events[..i]).link.Holding?
  }

  lemma StepConserves(start: map<nat, Ledger>, s: State, e: Event)
    requires Conserved(start, s) && HoldsFresh(s)
    requires e == Tick ==> !s.link.Holding?
    ensures Conserved(start, Step(s, e)) && HoldsFresh(Step(s, e))
  {
    if e.Write? && e.ok && s.link.Holding? {
      WriteConserves(start, s);
    } else {
      assert Step(s, e).fulfilled == s.fulfilled && Step(s, e).ledgers == s.ledgers;
    }
  }

  lemma WriteConserves(start: map<nat, Ledger>, s: State)
    requires Conserved(start, s) && HoldsFresh(s) && s.link.Holding?
    ensures Conserved(start, Step(s, Write(true)))
  {
    forall day: nat
      ensures Read(Step(s, Write(true)).ledgers, day) ==
                match Read(start, day)
                case Amount(a) => Amount(a + SumOn(Step(s, Write(true)).fulfilled, day))
                case Corrupt => Corrupt
    {
      SumSnoc(s.fulfilled, Charge(s.today, s.link.cost), day);
    }
  }

  /** No interleaving of calls, links, checks, failures and restarts loses an update: each day's ledger stays its
      starting total plus the charges whose promise was fulfilled that day. */
  lemma {:induction false} NoLostUpdate(lockFile: LockFile, start: map<nat, Ledger>, today: nat, events: seq<Event>)
    requires OneDayPerLink(Boot(lockFile, start, today), events)
    ensures Conserved(start, Run(Boot(lockFile, start, today), events))
    ensures HoldsFresh(Run(Boot(lockFile, start, today), events))
    decreases |events|
  {
    var s := Boot(lockFile, start, today);
    if events != [] {
      var front, last := events[..|events| - 1], events[|events| - 1];
      forall i | 0 <= i < |front| && front[i] == Tick ensures !Run(s, front[..i]).link.Holding? {
        assert front[..i] == events[..i] && events[i] == Tick;
      }
      NoLostUpdate(lockFile, start, today, front);
      assert events[|events| - 1] == Tick ==> !Run(s, events[..|events| - 1]).link.Holding?;
      StepConserves(start, Run(s, front), last);
    }
  }

  /** A write that straddles midnight keeps the books exactly when the two days' totals happen to agree: the link
      carries the old day's total into the new day's file. */
  lemma WriteAcrossMidnight(start: map<nat, Ledger>, s: State)
    requires Conserved(start, s) && s.link.Holding?
    requires Read(s.ledgers, s.link.day).Amount? && s.link.newTotal == Read(s.ledgers, s.link.day).nanos + s.link.cost
    ensures Conserved(start, Step(s, Write(true))) <==> Read(s.ledgers, s.today) == Read(s.ledgers, s.link.day)
  {
    var s' := Step(s, Write(true));
    forall day: nat
      ensures SumOn(s'.fulfilled, day) == SumOn(s.fulfilled, day) + if day == s.today then s.link.cost else 0
      ensures day != s.today ==> Read(s'.ledgers, day) == Read(s.ledgers, day)
    {
      SumSnoc(s.fulfilled, Charge(s.today, s.link.cost), day);
    }
    assert Read(s'.ledgers, s.today) == Amount(s.link.newTotal);
  }

  /** One charge read before midnight, its write still to come. */
  lemma ReadBeforeMidnight()
    ensures Run(Boot(NoFile, map[0 := Amount(5)], 0), [Record(2, true), Start(true), Tick])
            == State(false, NoFile, map[0 := Amount(5)], 1, [], Holding(2, 0, 7), 0, false, [])
  {
    var s0 := Boot(NoFile, map[0 := Amount(5)], 0);
    RunSnoc(s0, [], Record(2, true));
    RunSnoc(s0, [Record(2, true)], Start(true));
    RunSnoc(s0, [Record(2, true), Start(true)], Tick);
  }

  /** The smallest run that loses the books this way: one charge read before midnight and written after it, on top
      of an earlier charge that the new day then inherits. */
  lemma MidnightInheritsTheOldDay()
    ensures var s := Run(Boot(NoFile, map[0 := Amount(5)], 0), [Record(2, true), Start(true), Tick, Write(true)]);
      Read(s.ledgers, 1) == Amount(7) && SumOn(s.fulfilled, 1) == 2
  {
    ReadBeforeMidnight();
    RunSnoc(Boot(NoFile, map[0 := Amount(5)], 0), [Record(2, true), Start(true), Tick], Write(true));
    SumSnoc([], Charge(1, 2), 1);
    assert [] + [Charge(1, 2)] == [Charge(1, 2)];
  }

  lemma RunSnoc(s: State, events: seq<Event>, e: Event)
    ensures Run(s, events + [e]) == Step(Run(s, events), e)
    ensures [] + [e] == [e]
    ensures |events| == 1 ==> events + [e] == [events[0], e]
    ensures |events| == 2 ==> events + [e] == [events[0], events[1], e]
    ensures |events| == 3 ==> events + [e] == [events[0], events[1], events[2], e]
  {
    assert (events + [e])[..|events|] == events;
  }

  // ---------------------------------------------------------------- the chain never wedges

  /** Steps the chain still owes: up to three per queued charge, and what the current link has left. */
  function Owed(s: State): nat {
    3 * |s.queue| + match s.link case Idle => 0 case Holding(_, _, _) => 2 case Settling => 1
  }

  /** The event that moves the chain on. */
  function NextEvent(s: State, ok: bool, persisted: bool): Event {
    match s.link
    case Idle => Start(persisted)
    case Holding(_, _, _) => Write(ok)
    case Settling => Settle(persisted)
  }

  /** Whatever succeeds or fails, the chain always has a next step while it owes any, and each step leaves less:
      a rejected link never blocks the ones behind it. */
  lemma ChainAlwaysMoves(s: State, ok: bool, persisted: bool)
    requires s.link != Idle || s.queue != []
    ensures Owed(Step(s, NextEvent(s, ok, persisted))) < Owed(s)
    ensures Owed(s) > 0
  {
  }

  // ---------------------------------------------------------------- the lock is sticky

  predicate SameBoot(events: seq<Event>) {
    forall i :: 0 <= i < |events| ==> events[i] != Restart
  }

  /** Once locked with no write in flight, a process fulfils no further charge and admits no further call, on this
      day or any later one. */
  lemma {:induction false} LockIsSticky(s: State, events: seq<Event>, hard: int)
    requires Locked(s) && !s.link.Holding? && SameBoot(events)
    ensures var s' := Run(s, events);
      Locked(s') && !s'.link.Holding? && s'.fulfilled == s.fulfilled && !Admits(s', hard)
    decreases |events|
  {
    if events != [] {
      LockIsSticky(s, events[..|events| - 1], hard);
    }
  }

  lemma FileLockStep(s: State, e: Event)
    requires FileLocks(s.lockFile) && !s.link.Holding?
    ensures var s' := Step(s, e); FileLocks(s'.lockFile) && !s'.link.Holding? && s'.fulfilled == s.fulfilled
  {
  }

  /** A lock that reached its file survives every restart as well. */
  lemma {:induction false} FileLockIsDurable(s: State, events: seq<Event>, hard: int)
    requires FileLocks(s.lockFile) && !s.link.Holding?
    ensures var s' := Run(s, events);
      FileLocks(s'.lockFile) && !s'.link.Holding? && s'.fulfilled == s.fulfilled && !Admits(s', hard)
    decreases |events|
  {
    if events != [] {
      FileLockIsDurable(s, events[..|events| - 1], hard);
      FileLockStep(Run(s, events[..|events| - 1]), events[|events| - 1]);
    }
  }

  /** A restart keeps the lock exactly when the file holds it. */
  lemma RestartKeepsOnlyTheFile(s: State)
    ensures Locked(Step(s, Restart)) <==> FileLocks(s.lockFile)
  {
  }

  lemma StepLocksOrSettles(s: State, e: Event)
    requires s.failed ==> Locked(s) || s.link == Settling
    ensures var s' := Step(s, e); s'.failed ==> Locked(s') || s'.link == Settling
  {
  }

  /** In every reachable state a failed link has either locked the process already or is the rejected head of the
      chain, its catch handler still to run. */
  lemma {:induction false} FailureLocksOrSettles(lockFile: LockFile, start: map<nat, Ledger>, today: nat, events: seq<Event>)
    ensures var s := Run(Boot(lockFile, start, today), events);
      s.failed ==> Locked(s) || s.link == Settling
    decreases |events|
  {
    if events != [] {
      var front, last := events[..|events| - 1], events[|events| - 1];
      FailureLocksOrSettles(lockFile, start, today, front);
      StepLocksOrSettles(Run(Boot(lockFile, start, today), front), last);
    }
  }

  /** Hence the window in which a call is still admitted after a failed link: only between the rejection and its
      catch handler, which closes it for the rest of the boot. */
  lemma AdmissionAfterFailure(lockFile: LockFile, start: map<nat, Ledger>, today: nat, events: seq<Event>, hard: int,
                              persisted: bool, later: seq<Event>)
    requires Run(Boot(lockFile, start, today), events).failed && SameBoot(later)
    ensures var s := Run(Boot(lockFile, start, today), events);
      && (Admits(s, hard) ==> s.link == Settling && !Admits(Run(Step(s, Settle(persisted)), later), hard))
      && (s.link != Settling && !s.link.Holding? ==> !Admits(Run(s, later), hard))
  {
    var s := Run(Boot(lockFile, start, today), events);
    FailureLocksOrSettles(lockFile, start, today, events);
    if s.link == Settling {
      LockIsSticky(Step(s, Settle(persisted)), later, hard);
    } else if !s.link.Holding? {
      LockIsSticky(s, later, hard);
    }
  }

  /** The window is real: after a write that throws, a check that gets in before the handler is admitted. */
  lemma AdmittedInTheWindow()
    ensures var s := Run(Boot(NoFile, map[], 0), [Record(1, true), Start(true), Write(false)]);
      s.failed && Admits(s, 10) && !Admits(Step(s, Settle(false)), 10)
  {
    var s0 := Boot(NoFile, map[], 0);
    RunSnoc(s0, [], Record(1, true));
    RunSnoc(s0, [Record(1, true)], Start(true));
    assert Run(s0, [Record(1, true), Start(true)]).link == Holding(1, 0, 1);
    RunSnoc(s0, [Record(1, true), Start(true)], Write(false));
  }

  /** No charge behind a failed link succeeds: the handler runs before the next link starts. */
  lemma {:induction false} NothingAfterAFailure(s: State, events: seq<Event>)
    requires s.link == Settling && SameBoot(events)
    ensures Run(s, events).fulfilled == s.fulfilled
    ensures Run(s, events).link == Settling || (Locked(Run(s, events)) && !Run(s, events).link.Holding?)
    decreases |events|
  {
    if events != [] {
      NothingAfterAFailure(s, events[..|events| - 1]);
    }
  }

  // ---------------------------------------------------------------- the overshoot bound

  /** Admitted calls whose charge has not been booked or rejected yet. */
  function Unrecorded(s: State): nat {
    s.running + |s.queue| + if s.link.Holding? then 1 else 0
  }

  /** Charges come from admitted calls only and cost at most `m`; checks use the cap `hard`. */
  predicate Metered(s: State, e: Event, hard: int, m: nat) {
    (e.Record? ==> s.running > 0 && e.cost <= m) && (e.Check? ==> e.hard == hard)
  }

  ghost predicate WithinProtocol(s: State, events: seq<Event>, hard: int, m: nat, k: nat) {
    && OneDayPerLink(s, events)
    && (forall i :: 0 <= i < |events| ==> Metered(Run(s, events[..i]), events[i], hard, m))
    && (forall i :: 0 <= i <= |events| ==> Unrecorded(Run(s, events[..i])) <= k)
  }

  ghost predicate Headroom(s: State, hard: int, m: nat, k: nat) {
    && (Read(s.ledgers, s.today).Amount? ==> Read(s.ledgers, s.today).nanos + Unrecorded(s) * m < hard + k * m)
    && (forall i :: 0 <= i < |s.queue| ==> s.queue[i] <= m)
    && (s.link.Holding? ==> s.link.cost <= m)
    && (forall d <- s.ledgers :: d <= s.today)
  }

  lemma WriteKeepsHeadroom(s: State, hard: int, m: nat, k: nat)
    requires Headroom(s, hard, m, k) && HoldsFresh(s) && s.link.Holding?
    ensures Headroom(Step(s, Write(true)), hard, m, k)
  {
    OneMore(Unrecorded(Step(s, Write(true))), m);
  }

  lemma TickKeepsHeadroom(s: State, hard: int, m: nat, k: nat)
    requires hard > 0 && Headroom(s, hard, m, k) && !s.link.Holding? && Unrecorded(s) <= k
    ensures Headroom(Step(s, Tick), hard, m, k)
  {
    Scales(Unrecorded(s), k, m);
  }

  /** Every other step leaves the ledgers and the day alone; only an admission below the cap adds a call. */
  lemma OtherKeepsHeadroom(s: State, e: Event, hard: int, m: nat, k: nat)
    requires Headroom(s, hard, m, k) && Metered(s, e, hard, m) && Unrecorded(Step(s, e)) <= k
    requires e != Tick && !(e.Write? && e.ok && s.link.Holding?)
    ensures Headroom(Step(s, e), hard, m, k)
  {
    var s' := Step(s, e);
    assert s'.ledgers == s.ledgers && s'.today == s.today;
    Scales(Unrecorded(s'), Unrecorded(s), m);
    Scales(Unrecorded(s'), k, m);
  }

  lemma StepKeepsHeadroom(s: State, e: Event, hard: int, m: nat, k: nat)
    requires hard > 0 && Headroom(s, hard, m, k) && HoldsFresh(s) && Metered(s, e, hard, m)
    requires e == Tick ==> !s.link.Holding?
    requires Unrecorded(s) <= k && Unrecorded(Step(s, e)) <= k
    ensures Headroom(Step(s, e), hard, m, k)
  {
    if e == Tick {
      TickKeepsHeadroom(s, hard, m, k);
    } else if e.Write? && e.ok && s.link.Holding? {
      WriteKeepsHeadroom(s, hard, m, k);
    } else {
      OtherKeepsHeadroom(s, e, hard, m, k);
    }
  }

  lemma Scales(a: nat, b: nat, m: nat)
    ensures a <= b ==> a * m <= b * m
  {
  }

  lemma OneMore(a: nat, m: nat)
    ensures (a + 1) * m == a * m + m
  {
  }

  lemma {:induction false} HeadroomHolds(lockFile: LockFile, start: map<nat, Ledger>, today: nat, events: seq<Event>, hard: int, m: nat, k: nat)
    requires hard > 0 && Read(start, today) == Amount(0) && forall d <- start :: d <= today
    requires WithinProtocol(Boot(lockFile, start, today), events, hard, m, k)
    ensures Headroom(Run(Boot(lockFile, start, today), events), hard, m, k)
    ensures HoldsFresh(Run(Boot(lockFile, start, today), events))
    decreases |events|
  {
    var s := Boot(lockFile, start, today);
    assert events[..|events|] == events;
    if events == [] {
      Scales(0, k, m);
    } else {
      var front, last := events[..|events| - 1], events[|events| - 1];
      assert forall i :: 0 <= i <= |front| ==> front[..i] == events[..i];
      forall i | 0 <= i < |front| ensures Metered(Run(s, front[..i]), front[i], hard, m) {
        assert Metered(Run(s, events[..i]), events[i], hard, m);
      }
      forall i | 0 <= i < |front| && front[i] == Tick ensures !Run(s, front[..i]).link.Holding? {
        assert events[i] == Tick;
      }
      HeadroomHolds(lockFile, start, today, front, hard, m, k);
      assert Metered(Run(s, events[..|front|]), events[|front|], hard, m);
      StepKeepsHeadroom(Run(s, front), last, hard, m, k);
      NoLostUpdate(lockFile, start, today, events);
    }
  }

  /** From a fresh day, with at most `k` admitted calls unrecorded at any time and each charge at most `m`, the
      day's total stays strictly below the cap plus `k * m` in every reachable state. */
  lemma OvershootIsBounded(lockFile: LockFile, start: map<nat, Ledger>, today: nat, events: seq<Event>, hard: int, m: nat, k: nat)
    requires hard > 0 && Read(start, today) == Amount(0) && forall d <- start :: d <= today
    requires WithinProtocol(Boot(lockFile, start, today), events, hard, m, k)
    ensures var s := Run(Boot(lockFile, start, today), events);
      Read(s.ledgers, s.today).Amount? ==> Read(s.ledgers, s.today).nanos < hard + k * m
  {
    HeadroomHolds(lockFile, start, today, events, hard, m, k);
    var s := Run(Boot(lockFile, start, today), events);
    Scales(0, Unrecorded(s), m);
  }
}
