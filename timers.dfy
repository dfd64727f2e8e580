/** What the timer handle does with the timers the loop reports expired. */
module Timers {
  import opened Effects

  /** One expired timer's fate: a dead timer is deleted without running; a
      live one runs once and is then reinserted if it repeats and deleted if
      it does not. */
  function Fate(t: Timer): seq<Effect> {
    if !t.alive then [DeleteTimer(t)]
    else if t.repeats then [RunTimer(t), ReinsertTimer(t)]
    else [RunTimer(t), DeleteTimer(t)]
  }

  /** The fates of the expired timers, in the order they were returned. */
  function Drain(ts: seq<Timer>): seq<Effect> {
    if ts == [] then [] else Drain(ts[..|ts| - 1]) + Fate(ts[|ts| - 1])
  }

  /** Draining two batches one after the other is draining them together:
      timers are handled strictly in the order given. */
  lemma {:induction false} DrainConcat(a: seq<Timer>, b: seq<Timer>)
    ensures Drain(a + b) == Drain(a) + Drain(b)
    decreases |b|
  {
    if b == [] {
      assert a + b == a;
    } else {
      var b' := b[..|b| - 1];
      assert (a + b)[..|a + b| - 1] == a + b';
      DrainConcat(a, b');
    }
  }

  lemma FateCounts(u: Timer, t: Timer)
    ensures multiset(Fate(u))[RunTimer(t)] == (if u == t && t.alive then 1 else 0)
    ensures multiset(Fate(u))[ReinsertTimer(t)] == (if u == t && t.alive && t.repeats then 1 else 0)
    ensures multiset(Fate(u))[DeleteTimer(t)] == (if u == t && !(t.alive && t.repeats) then 1 else 0)
  {
    if !u.alive {
      assert multiset(Fate(u)) == multiset{DeleteTimer(u)};
    } else if u.repeats {
      assert multiset(Fate(u)) == multiset{RunTimer(u), ReinsertTimer(u)};
    } else {
      assert multiset(Fate(u)) == multiset{RunTimer(u), DeleteTimer(u)};
    }
  }

  /** Each expired timer ends in exactly one state. Counted per occurrence:
      every live one runs once, the live repeating ones are reinserted, and
      all others are deleted. */
  lemma {:induction false} DrainCounts(ts: seq<Timer>, t: Timer)
    ensures multiset(Drain(ts))[RunTimer(t)] == (if t.alive then multiset(ts)[t] else 0)
    ensures multiset(Drain(ts))[ReinsertTimer(t)] == (if t.alive && t.repeats then multiset(ts)[t] else 0)
    ensures multiset(Drain(ts))[DeleteTimer(t)] == (if t.alive && t.repeats then 0 else multiset(ts)[t])
  {
    if ts != [] {
      var front := ts[..|ts| - 1];
      var last := ts[|ts| - 1];
      DrainCounts(front, t);
      assert ts == front + [last];
      assert multiset(ts) == multiset(front) + multiset{last};
      assert multiset(ts)[t] == multiset(front)[t] + (if last == t then 1 else 0);
      var m := multiset(Drain(front));
      var f := multiset(Fate(last));
      assert multiset(Drain(ts)) == m + f;
      FateCounts(last, t);
      assert multiset(Drain(ts))[RunTimer(t)] == m[RunTimer(t)] + f[RunTimer(t)];
      assert multiset(Drain(ts))[ReinsertTimer(t)] == m[ReinsertTimer(t)] + f[ReinsertTimer(t)];
      assert multiset(Drain(ts))[DeleteTimer(t)] == m[DeleteTimer(t)] + f[DeleteTimer(t)];
    }
  }

  /** Draining does nothing but run, reinsert and delete the given timers. */
  lemma {:induction false} DrainOnlyTimers(ts: seq<Timer>)
    ensures forall e :: e in Drain(ts) ==>
      (e.RunTimer? || e.ReinsertTimer? || e.DeleteTimer?) && e.timer in ts
  {
    if ts != [] {
      var front := ts[..|ts| - 1];
      DrainOnlyTimers(front);
      assert forall t :: t in front ==> t in ts;
    }
  }
}
