/** When the spend ledger locks, and when the lock reaches its file: exactly, for every event. */
module Locks {
  import opened Wrappers
  import opened Breakers

  predicate Corrupted(s: State) {
    s.today in s.ledgers && s.ledgers[s.today].Corrupt?
  }

  /** The charge at the head of the queue would take today's total out of the exact range. */
  predicate Overflows(s: State)
    requires s.queue != [] && !Corrupted(s)
  {
    (if s.today in s.ledgers then s.ledgers[s.today].nanos else 0) + s.queue[0] > MAX_SAFE
  }

  /** The event meets something that takes the lock: a corrupt ledger or an overflow on an unlocked breaker, a cost
      that is no amount, the handler of a rejected link, or the explicit lock. */
  predicate Trips(s: State, e: Event) {
    match e
    case Check(_, _) => !Locked(s) && Corrupted(s)
    case Record(cost, _) => cost < 0 || cost > MAX_SAFE
    case Start(_) => s.link.Idle? && s.queue != [] && !Locked(s) && (Corrupted(s) || Overflows(s))
    case Settle(_) => s.link.Settling?
    case LockNow(_) => true
    case _ => false
  }

  predicate Persists(e: Event) {
    match e
    case Check(_, persisted) => persisted
    case Record(_, persisted) => persisted
    case Start(persisted) => persisted
    case Settle(persisted) => persisted
    case LockNow(persisted) => persisted
    case _ => false
  }

  /** The event looks at the lock, and remembers what the file says. */
  predicate Asks(s: State, e: Event) {
    e.Check? || (e.Start? && s.link.Idle? && s.queue != [])
  }

  /** After an event the breaker is locked exactly when it was (a restart asks the file alone) or the event trips
      it; the file changes exactly when the event trips and the lock can be written, and then it locks. */
  lemma LocksExactlyWhen(s: State, e: Event)
    ensures Locked(Step(s, e)) <==> (if e.Restart? then FileLocks(s.lockFile) else Locked(s)) || Trips(s, e)
    ensures Step(s, e).lockFile == if Trips(s, e) && Persists(e) then WithReason else s.lockFile
    ensures Step(s, e).memLocked <==>
              !e.Restart? && (s.memLocked || Trips(s, e) || (Asks(s, e) && FileLocks(s.lockFile)))
  {
  }

  /** The event rejects a link: one that starts on a locked or corrupted ledger or overflows it, or whose write fails. */
  predicate Rejects(s: State, e: Event) {
    match e
    case Start(_) => s.link.Idle? && s.queue != [] && (Locked(s) || Corrupted(s) || Overflows(s))
    case Write(ok) => s.link.Holding? && !ok
    case _ => false
  }

  /** A boot counts as failed exactly from its first rejected link on; a rejected link waits for its handler. */
  lemma FailsExactlyWhen(s: State, e: Event)
    ensures Step(s, e).failed <==> !e.Restart? && (s.failed || Rejects(s, e))
    ensures Rejects(s, e) ==> Step(s, e).link.Settling? && Step(s, e).ledgers == s.ledgers
  {
  }

  /** Engine calls are counted: one more for every check that admits, one fewer for every cost recorded. */
  lemma CallsAreCounted(s: State, e: Event)
    ensures Step(s, e).running ==
              match e
              case Check(hard, _) => if Admits(s, hard) then s.running + 1 else s.running
              case Record(_, _) => if s.running == 0 then 0 else s.running - 1
              case Restart => 0
              case _ => s.running
  {
  }

  /** The `i`-th event of the run trips the lock, and its lock can be written. */
  ghost predicate LockWrittenAt(s: State, events: seq<Event>, i: int) {
    0 <= i < |events| && Trips(Run(s, events[..i]), events[i]) && Persists(events[i])
  }

  ghost predicate SomeLockWritten(s: State, events: seq<Event>) {
    exists i :: LockWrittenAt(s, events, i)
  }

  lemma WrittenEarlierOrLast(s: State, events: seq<Event>)
    requires events != []
    ensures SomeLockWritten(s, events) <==>
              SomeLockWritten(s, events[..|events| - 1]) || LockWrittenAt(s, events, |events| - 1)
  {
    var front := events[..|events| - 1];
    assert forall i :: 0 <= i < |front| ==> front[..i] == events[..i];
    if i :| LockWrittenAt(s, front, i) { assert LockWrittenAt(s, events, i); }
    if i :| LockWrittenAt(s, events, i) && i < |front| { assert LockWrittenAt(s, front, i); }
  }

  lemma LastEvent(s: State, events: seq<Event>)
    requires events != []
    ensures Run(s, events).lockFile ==
              if LockWrittenAt(s, events, |events| - 1) then WithReason else Run(s, events[..|events| - 1]).lockFile
  {
    LocksExactlyWhen(Run(s, events[..|events| - 1]), events[|events| - 1]);
  }

  /** A run's lock file is the one it started with until the first lock that can be written, and names a reason
      from then on. */
  lemma {:induction false} FileLockComesFromATrip(s: State, events: seq<Event>)
    ensures Run(s, events).lockFile == if SomeLockWritten(s, events) then WithReason else s.lockFile
  {
    if events != [] {
      FileLockComesFromATrip(s, events[..|events| - 1]);
      LastEvent(s, events);
      WrittenEarlierOrLast(s, events);
    }
  }
}
