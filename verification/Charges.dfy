/** The queue of the spend ledger over whole runs: every recorded cost joins it, and links take them in order. */
module Charges {
  import opened Breakers

  /** The costs recorded by a run that are amounts, in order. */
  function Recorded(events: seq<Event>): seq<nat> {
    if events == [] then []
    else
      var last := events[|events| - 1];
      Recorded(events[..|events| - 1])
      + if last.Record? && 0 <= last.cost <= MAX_SAFE then [last.cost] else []
  }

  /** The event starts the next link: the chain is free and a charge is waiting. */
  predicate Takes(s: State, e: Event) {
    e.Start? && s.link.Idle? && s.queue != []
  }

  /** How many links a run starts. */
  function Taken(s: State, events: seq<Event>): nat {
    if events == [] then 0
    else
      var front := events[..|events| - 1];
      Taken(s, front) + if Takes(Run(s, front), events[|events| - 1]) then 1 else 0
  }

  lemma StepOnTheQueue(s: State, e: Event)
    requires !e.Restart?
    ensures Step(s, e).queue ==
              (if Takes(s, e) then s.queue[1..] else s.queue)
              + if e.Record? && 0 <= e.cost <= MAX_SAFE then [e.cost] else []
    ensures Step(s, e).link.Holding? ==> Step(s, e).link.cost == if Takes(s, e) then s.queue[0] else s.link.cost
    ensures Step(s, e).link.Holding? && !Takes(s, e) ==> s.link.Holding?
  {
  }

  /** Within a boot, what waits is what was waiting and what was recorded, less what links have taken from the front;
      and a link between its read and its write holds the last cost taken. */
  lemma {:induction false} QueueIsFifo(s: State, events: seq<Event>)
    requires SameBoot(events)
    ensures var all := s.queue + Recorded(events);
      && Taken(s, events) <= |all|
      && Run(s, events).queue == all[Taken(s, events)..]
      && (Run(s, events).link.Holding? && Taken(s, events) > 0 ==>
            Run(s, events).link.cost == all[Taken(s, events) - 1])
      && (Run(s, events).link.Holding? && Taken(s, events) == 0 ==> s.link.Holding?)
  {
    if events == [] {
      assert s.queue + Recorded(events) == s.queue;
    } else {
      var front, last := events[..|events| - 1], events[|events| - 1];
      QueueIsFifo(s, front);
      StepOnTheQueue(Run(s, front), last);
      TakeOne(s.queue + Recorded(front), Taken(s, front), Recorded(events)[|Recorded(front)|..]);
      assert Recorded(events) == Recorded(front) + Recorded(events)[|Recorded(front)|..];
      assert s.queue + Recorded(events) == (s.queue + Recorded(front)) + Recorded(events)[|Recorded(front)|..];
    }
  }

  lemma TakeOne(all: seq<nat>, n: nat, more: seq<nat>)
    requires n <= |all|
    ensures (all + more)[n..] == all[n..] + more
    ensures n < |all| ==> (all + more)[n + 1..] == all[n..][1..] + more && (all + more)[n] == all[n..][0]
    ensures n > 0 ==> (all + more)[n - 1] == all[n - 1]
  {
  }
}
