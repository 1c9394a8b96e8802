/** What becomes of the charges waiting in the spend ledger's promise chain. */
module Drain {
  import opened Wrappers
  import opened Breakers

  /** The costs not yet booked or rejected, in order. */
  function Pending(s: State): seq<nat> {
    (if s.link.Holding? then [s.link.cost] else []) + s.queue
  }

  /** The chain left to itself; the two functions say, step by step, what the file system does. */
  function Drained(s: State, ok: nat -> bool, persisted: nat -> bool): State
    decreases Owed(s)
  {
    if s.link == Idle && s.queue == [] then s
    else
      ChainAlwaysMoves(s, ok(Owed(s)), persisted(Owed(s)));
      Drained(Step(s, NextEvent(s, ok(Owed(s)), persisted(Owed(s)))), ok, persisted)
  }

  function ChargesOn(day: nat, costs: seq<nat>): (r: seq<Charge>)
    ensures |r| == |costs| && forall i :: 0 <= i < |costs| ==> r[i] == Charge(day, costs[i])
  {
    seq(|costs|, i requires 0 <= i < |costs| => Charge(day, costs[i]))
  }

  lemma {:induction false} LockedDrain(s: State, ok: nat -> bool, persisted: nat -> bool)
    requires Locked(s) && !s.link.Holding?
    ensures var d := Drained(s, ok, persisted);
      d.link == Idle && d.queue == [] && d.fulfilled == s.fulfilled && Locked(d) && d.today == s.today
    decreases Owed(s)
  {
    if s.link != Idle || s.queue != [] {
      ChainAlwaysMoves(s, ok(Owed(s)), persisted(Owed(s)));
      LockedDrain(Step(s, NextEvent(s, ok(Owed(s)), persisted(Owed(s)))), ok, persisted);
    }
  }

  lemma RejectionLocks(s: State, ok: nat -> bool, persisted: nat -> bool)
    requires s.link == Settling
    ensures var d := Drained(s, ok, persisted);
      d.link == Idle && d.queue == [] && d.fulfilled == s.fulfilled && Locked(d) && d.today == s.today
  {
    LockedDrain(Step(s, Settle(persisted(Owed(s)))), ok, persisted);
  }

  /** From `s`, the emptied chain `d` has booked exactly the first `n` pending charges. */
  ghost predicate SettledAs(s: State, d: State, n: nat) {
    && d.link == Idle && d.queue == [] && d.today == s.today
    && n <= |Pending(s)| && d.fulfilled == s.fulfilled + ChargesOn(s.today, Pending(s)[..n])
    && (n < |Pending(s)| ==> Locked(d))
  }

  lemma NoneSettled(s: State, d: State)
    requires d.link == Idle && d.queue == [] && d.today == s.today && d.fulfilled == s.fulfilled && Locked(d)
    ensures SettledAs(s, d, 0)
  {
    assert ChargesOn(s.today, Pending(s)[..0]) == [];
  }

  lemma ChargesCons(day: nat, cost: nat, costs: seq<nat>, m: nat)
    requires m <= |costs|
    ensures ChargesOn(day, ([cost] + costs)[..m + 1]) == [Charge(day, cost)] + ChargesOn(day, costs[..m])
  {
    assert ([cost] + costs)[..m + 1] == [cost] + costs[..m];
  }

  lemma OneMoreSettled(s: State, after: State, d: State, m: nat)
    requires s.link.Holding? && after.link == Idle && after.queue == s.queue && after.today == s.today
    requires after.fulfilled == s.fulfilled + [Charge(s.today, s.link.cost)] && SettledAs(after, d, m)
    ensures SettledAs(s, d, m + 1)
  {
    assert Pending(after) == s.queue;
    ChargesCons(s.today, s.link.cost, s.queue, m);
    Associates(s.fulfilled, [Charge(s.today, s.link.cost)], ChargesOn(s.today, s.queue[..m]));
  }

  lemma SamePending(s: State, after: State, d: State, n: nat)
    requires s.link == Idle && s.queue != [] && after.link.Holding?
    requires after.link.cost == s.queue[0] && after.queue == s.queue[1..]
    requires after.today == s.today && after.fulfilled == s.fulfilled && SettledAs(after, d, n)
    ensures SettledAs(s, d, n)
  {
    assert Pending(after) == Pending(s);
  }

  /** Whatever the file system does, the chain empties, and every pending charge is booked or rejected: exactly a
      leading run of them is booked, in order, and if any is rejected the process ends up locked. */
  lemma {:induction false} DrainSettlesEveryCharge(s: State, ok: nat -> bool, persisted: nat -> bool) returns (n: nat)
    ensures SettledAs(s, Drained(s, ok, persisted), n)
    decreases Owed(s)
  {
    n := 0;
    var d := Drained(s, ok, persisted);
    if s.link == Idle && s.queue == [] {
      assert ChargesOn(s.today, Pending(s)[..0]) == [];
    } else if s.link.Holding? && ok(Owed(s)) {
      var s' := Step(s, Write(true));
      n := DrainSettlesEveryCharge(s', ok, persisted);
      OneMoreSettled(s, s', d, n);
      n := n + 1;
    } else if s.link.Holding? {
      RejectionLocks(Step(s, Write(false)), ok, persisted);
      NoneSettled(s, d);
    } else if s.link == Settling {
      RejectionLocks(s, ok, persisted);
      NoneSettled(s, d);
    } else {
      n := StartedChainSettles(s, ok, persisted);
    }
  }

  lemma {:induction false} StartedChainSettles(s: State, ok: nat -> bool, persisted: nat -> bool) returns (n: nat)
    requires s.link == Idle && s.queue != []
    ensures SettledAs(s, Drained(s, ok, persisted), n)
    decreases Owed(s), 0
  {
    n := 0;
    var d, s' := Drained(s, ok, persisted), NextLink(s, persisted(Owed(s)));
    assert s' == Step(s, Start(persisted(Owed(s))));
    if s'.link.Holding? {
      n := DrainSettlesEveryCharge(s', ok, persisted);
      SamePending(s, s', d, n);
    } else {
      RejectionLocks(s', ok, persisted);
      NoneSettled(s, d);
    }
  }
}
