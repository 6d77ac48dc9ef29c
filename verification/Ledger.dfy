/** The counter's books: how far the keychain counter may fall behind the log, and why. */
module Ledger {
  import opened Chain
  import opened Writers
  import opened Machine

  /** Entries the counter does not cover and no running batch is about to add. */
  function SettledLag(s: System): int {
    |s.store.log| - CounterOf(s.store.kc) - InFlight(s)
  }

  /** A step at which the holder gives up: it returns without writing anything more. */
  predicate GivesUp(env: Env, s: System, now: Time, newKey: string)
    requires s.lock.Some?
  {
    Tick(env, Local(s.store, CacheOf(s, s.lock.value.writer)), s.lock.value.task, now, newKey).phase == Returned(false)
  }

  /** The entries an event leaves uncounted for good: those of a batch that crashed, failed or gave up,
      and the ones that are never counted. */
  function Uncounted(env: Env, s: System, ev: Event): nat
    requires Enabled(s, ev)
  {
    match ev
    case Fail => InFlight(s)
    case Crash(w) => if s.lock.Some? && s.lock.value.writer == w then InFlight(s) else 0
    case Step(now, newKey) => if GivesUp(env, s, now, newKey) then InFlight(s) else 0
    case LegacyAppend(_, _) => 1
    case UnsignedAppend(_, _) => 1
    case _ => 0
  }

  /** One store write of a critical section: entries appended, entries counted, entries in flight. */
  lemma TickBooks(env: Env, l: Local, task: Task, now: Time, newKey: string)
    ensures var p := Tick(env, l, task, now, newKey);
            var before := |l.store.log| - CounterOf(l.store.kc) - TaskInFlight(task);
            var after := |p.l.store.log| - CounterOf(p.l.store.kc) - (if p.phase.Running? then TaskInFlight(p.phase.task) else 0);
            after == before + if p.phase == Returned(false) then TaskInFlight(task) else 0
  {
    hide SignedEntry, SignedInput, UnsealedAnchor, MarkerIntent, Chain.TailEpoch, Chain.HashOf,
      CurrentPair, NextEpoch, Chain.KeyIndex;
  }

  /** The books balance at every event: the settled lag grows by exactly the entries the event leaves
      uncounted, so a section that runs to its end leaves it unchanged. */
  lemma EventBooks(env: Env, s: System, ev: Event)
    requires Enabled(s, ev)
    ensures SettledLag(Next(env, s, ev)) == SettledLag(s) + Uncounted(env, s, ev)
  {
    hide Tick, SignedEntry, UnsignedEntry, LegacyEntry, CurrentPair;
    if ev.Step? {
      var h := s.lock.value;
      TickBooks(env, Local(s.store, CacheOf(s, h.writer)), h.task, ev.now, ev.newKey);
    }
  }

  /** Everything a run leaves uncounted. */
  ghost function TotalUncounted(env: Env, s: System, evs: seq<Event>): nat
    decreases |evs|
  {
    if evs == [] || !Enabled(s, evs[0]) then 0
    else Uncounted(env, s, evs[0]) + TotalUncounted(env, Next(env, s, evs[0]), evs[1..])
  }

  /** Over any run the lag is conserved: it never falls, and it grows by exactly what was left uncounted. */
  lemma {:induction false} RunBooks(env: Env, s: System, evs: seq<Event>, t: System)
    requires Run(env, s, evs, t)
    ensures SettledLag(t) == SettledLag(s) + TotalUncounted(env, s, evs)
    decreases |evs|
  {
    hide Next, InScope, SettledLag, Uncounted;
    if evs != [] {
      EventBooks(env, s, evs[0]);
      RunBooks(env, Next(env, s, evs[0]), evs[1..], t);
    }
  }

  /** From the empty stores on, the log is ahead of the counter by exactly the entries left uncounted
      and the ones in flight; in particular the counter never exceeds the log. */
  lemma CounterNeverAhead(env: Env, evs: seq<Event>, t: System)
    requires Run(env, EMPTY, evs, t)
    ensures |t.store.log| == CounterOf(t.store.kc) + TotalUncounted(env, EMPTY, evs) + InFlight(t)
    ensures CounterOf(t.store.kc) <= |t.store.log|
  {
    hide Run, TotalUncounted;
    RunBooks(env, EMPTY, evs, t);
  }
}
