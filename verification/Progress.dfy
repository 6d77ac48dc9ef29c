/** What a critical section achieves when nothing fails: it can go through exactly when the writer's epoch is the
    tail's, it records and counts its whole batch, and it leaves an anchor that covers the whole log.
  */
module Progress {
  import opened Text
  import opened Framing
  import opened Chain
  import opened Writers
  import opened Invariant
  import opened Machine
  import opened Guarantees
  import opened Rotation
  import opened TamperEvidence
  import opened Verifier
  import opened FileWrites

  // ---------- the anchor covers the log ----------

  /** The anchor records every line of the log, and when. */
  predicate AnchorsAll(env: Env, s: Store, now: Time) {
    s.anchor.Some? &&
    var a := s.anchor.value;
    && a.entryCount == |s.log|
    && a.lastHash == (if s.log == [] then "" else HashOf(env, env.marshal(s.log[|s.log| - 1])))
    && a.time == env.rfc3339(now.seconds)
  }

  lemma AnchoringTick(env: Env, l: Local, task: Task, now: Time, newKey: string)
    requires task.Counting? ==> AnchorsAll(env, l.store, now)
    requires task.Refreshing? ==> CurrentPair(l.store.kc).Some?
    ensures var p := Tick(env, l, task, now, newKey);
            && (p.phase == Returned(true) || (p.phase.Running? && p.phase.task.Counting?) ==> AnchorsAll(env, p.l.store, now))
            && (p.phase.Running? ==> !p.phase.task.Refreshing?)
  {
    hide AppendSigned, PutKey, PutPointer, MarkerIntent, AnchorSignBytes, HashOf, Chain.TailEpoch, KeyIndex, NextEpoch;
  }

  /** Whenever a critical section returns success, batch, rotation or refresh, the anchor covers the whole log. */
  lemma {:induction false} SuccessAnchorsAll(env: Env, l: Local, task: Task, now: Time, newKey: string, budget: nat)
    requires task.Counting? ==> AnchorsAll(env, l.store, now)
    requires task.Refreshing? ==> CurrentPair(l.store.kc).Some?
    ensures var p := RunTask(env, l, task, now, newKey, budget); p.phase == Returned(true) ==> AnchorsAll(env, p.l.store, now)
    decreases TaskRank(task)
  {
    hide Tick, RunTask, AnchorsAll, CurrentPair;
    if budget == 0 {
      BudgetSpent(env, l, task, now, newKey);
    } else {
      RunTaskOnce(env, l, task, now, newKey, budget);
      AnchoringTick(env, l, task, now, newKey);
      var p := Tick(env, l, task, now, newKey);
      if p.phase.Running? {
        TickProgresses(env, l, task, now, newKey);
        SuccessAnchorsAll(env, p.l, p.phase.task, now, newKey, budget - 1);
      }
    }
  }

  predicate AnchorsPointer(s: Store) {
    s.anchor.Some? && s.anchor.value.keyEpoch == DeclaredEpoch(Pointer(s.kc))
  }

  /** Where a rotation or a refresh may be, when it is about to seal its anchor or has done so. */
  predicate SealsPointer(l: Local, task: Task) {
    match task
    case Counting(_) => AnchorsPointer(l.store)
    case Reanchoring(_) => l.cache.Some? ==> l.cache.value.epoch == Pointer(l.store.kc)
    case Refreshing => CurrentPair(l.store.kc).Some?
    case Secure(_, _) => false
    case Appending(_, _) => false
    case Anchoring(_) => false
    case _ => true
  }

  lemma SealingTick(env: Env, l: Local, task: Task, now: Time, newKey: string)
    requires SealsPointer(l, task)
    ensures var p := Tick(env, l, task, now, newKey);
            && (p.phase == Returned(true) ==> AnchorsPointer(p.l.store))
            && (p.phase.Running? ==> SealsPointer(p.l, p.phase.task))
  {
    hide AppendSigned, PutKey, MarkerIntent, AnchorSignBytes, HashOf, Chain.TailEpoch, KeyIndex, NextEpoch;
  }

  /** A rotation or a refresh that returns success has sealed the anchor under the pointer's epoch. */
  lemma {:induction false} SuccessSealsPointer(env: Env, l: Local, task: Task, now: Time, newKey: string, budget: nat)
    requires SealsPointer(l, task)
    ensures var p := RunTask(env, l, task, now, newKey, budget); p.phase == Returned(true) ==> AnchorsPointer(p.l.store)
    decreases TaskRank(task)
  {
    hide Tick, RunTask, AnchorsPointer, CurrentPair;
    if budget == 0 {
      BudgetSpent(env, l, task, now, newKey);
    } else {
      RunTaskOnce(env, l, task, now, newKey, budget);
      SealingTick(env, l, task, now, newKey);
      var p := Tick(env, l, task, now, newKey);
      if p.phase.Running? {
        TickProgresses(env, l, task, now, newKey);
        SuccessSealsPointer(env, p.l, p.phase.task, now, newKey, budget - 1);
      }
    }
  }

  // ---------- the same in the many-writer system ----------

  /** Once the holder has only its counter left to bump, the anchor covers the log. */
  ghost predicate CoveredWhenCounting(env: Env, s: System) {
    s.lock.Some? && s.lock.value.task.Counting? ==> exists now :: AnchorsAll(env, s.store, now)
  }

  lemma CoveredStep(env: Env, s: System, ev: Event)
    requires CoveredWhenCounting(env, s) && Enabled(s, ev)
    ensures CoveredWhenCounting(env, Next(env, s, ev))
    ensures ev.Step? && !s.lock.value.task.Refreshing? ==>
              var h := s.lock.value;
              var p := Tick(env, Local(s.store, CacheOf(s, h.writer)), h.task, ev.now, ev.newKey);
              p.phase == Returned(true) ==> exists now :: AnchorsAll(env, p.l.store, now)
  {
    hide Tick, IntentOk, AnchorsAll, LegacyEntry, UnsignedEntry;
    if ev.Step? && !s.lock.value.task.Refreshing? {
      var h := s.lock.value;
      var now :| h.task.Counting? ==> AnchorsAll(env, s.store, now);
      StepCovers(env, Local(s.store, CacheOf(s, h.writer)), h.task, now, ev.now, ev.newKey);
    } else if ev.Step? {
      RefreshReturns(env, Local(s.store, CacheOf(s, s.lock.value.writer)), s.lock.value.task, ev.now, ev.newKey);
    } else if ev.Mint? && s.lock.Some? && s.lock.value.task.Counting? {
      var now :| AnchorsAll(env, s.store, now);
      MintCovers(env, s.store, ev.c, now);
    }
  }

  lemma RefreshReturns(env: Env, l: Local, task: Task, now: Time, newKey: string)
    requires task.Refreshing?
    ensures Tick(env, l, task, now, newKey).phase.Returned?
  {
  }

  lemma MintCovers(env: Env, s: Store, c: Capability, now: Time)
    requires AnchorsAll(env, s, now) && 1 in s.kc.keys
    ensures AnchorsAll(env, SignCapability(s, c), now)
  {
  }

  lemma StepCovers(env: Env, l: Local, task: Task, before: Time, now: Time, newKey: string)
    requires !task.Refreshing? && (task.Counting? ==> AnchorsAll(env, l.store, before))
    ensures var p := Tick(env, l, task, now, newKey);
            p.phase == Returned(true) || (p.phase.Running? && p.phase.task.Counting?) ==> exists t :: AnchorsAll(env, p.l.store, t)
  {
    hide AnchorsAll;
    if task.Counting? {
      CounterKeepsAnchor(env, l.store, task.done, before);
    } else {
      AnchoringTick(env, l, task, now, newKey);
    }
  }

  lemma CounterKeepsAnchor(env: Env, s: Store, delta: nat, now: Time)
    requires AnchorsAll(env, s, now)
    ensures AnchorsAll(env, AddCounter(s, delta), now)
  {
  }

  lemma {:induction false} CoveredRun(env: Env, s: System, evs: seq<Event>, t: System)
    requires CoveredWhenCounting(env, s) && Run(env, s, evs, t)
    ensures CoveredWhenCounting(env, t)
    decreases |evs|
  {
    hide CoveredWhenCounting, Next;
    if evs != [] {
      CoveredStep(env, s, evs[0]);
      CoveredRun(env, Next(env, s, evs[0]), evs[1..], t);
    }
  }

  /** In every reachable state, the store write with which a batch or a rotation returns success leaves an anchor
      that covers the whole log, whatever other processes did meanwhile. */
  lemma SuccessCoversLog(env: Env, s: System, now: Time, newKey: string)
    requires Reachable(env, s) && s.lock.Some? && !s.lock.value.task.Refreshing?
    requires Tick(env, Local(s.store, CacheOf(s, s.lock.value.writer)), s.lock.value.task, now, newKey).phase == Returned(true)
    ensures exists t :: AnchorsAll(env, Next(env, s, Step(now, newKey)).store, t)
  {
    hide Tick, AnchorsAll;
    var evs: seq<Event> :| Run(env, EMPTY, evs, s);
    CoveredRun(env, EMPTY, evs, s);
    CoveredStep(env, s, Step(now, newKey));
  }

  /** After a success the whole log is fixed: any log that passes under the stored anchor has at least its lines,
      and agrees with it on all of them back to the first pinned one. */
  lemma SuccessFixesWholeLog(env: Env, s: Store, now: Time, lines: seq<string>, es: seq<Entry>)
    requires StoreInv(env, s) && CurrentPair(s.kc).Some? && AnchorsAll(env, s, now) && Presented(env, s, lines, es)
    requires Passes(Verify(env, lines, Value(s.anchor.value), Ring(s.kc)))
    ensures |lines| >= |s.log|
    ensures forall k | FirstPinned(s.log) <= k < |s.log| :: lines[k] == Lines(env, s.log)[k]
  {
    hide StoreInv, Presented, AnchorUnforged, HashOf, Verify, FirstPinned, Sound;
    CurrentOfStore(env, s);
    PresentedParses(env, s, lines, es);
    PassMeansSound(env, lines, Value(s.anchor.value), Ring(s.kc).value);
    OwnAnchorUnforged(env, s);
    if s.log != [] {
      AnchoredHistoryIsFixed(env, s, ScannedBy(env, lines, Ring(s.kc)), s.anchor.value);
    }
  }

  lemma OwnAnchorUnforged(env: Env, s: Store)
    requires StoreInv(env, s) && s.anchor.Some?
    ensures AnchorUnforged(env, s, s.anchor.value)
  {
  }

  // ---------- a batch that can go through does ----------

  /** Every entry from index `n` on is signed by `c`, at `now`. */
  predicate SignedFrom(env: Env, log: seq<Entry>, n: nat, c: Cached, now: Time) {
    forall i | n <= i < |log| ::
      log[i].time == now && log[i].sig != "" && EffectiveEpoch(log[i].keyEpoch) == c.epoch && GenuineSig(env, c.key, log[i], c.epoch)
  }

  /** What a batch of `todo` has to have done, `done` entries of it earlier. */
  predicate Achieved(env: Env, s: Store, t: Store, c: Cached, todo: seq<Intent>, done: nat, now: Time) {
    && s.log <= t.log
    && Records(t.log) == Records(s.log) + IntentRecords(todo)
    && SignedFrom(env, t.log, |s.log|, c, now)
    && CounterOf(t.kc) == CounterOf(s.kc) + done + |todo|
    && t.kc.keys == s.kc.keys && t.kc.pointer == s.kc.pointer
    && AnchorsAll(env, t, now) && t.anchor.value.keyEpoch == DeclaredEpoch(c.epoch)
  }

  lemma AppendGoesThrough(env: Env, l: Local, x: Intent, now: Time, next: Task)
    requires l.cache.Some? && 1 <= l.cache.value.epoch && TailEpoch(l.store.log) <= l.cache.value.epoch && IntentOk(x)
    ensures var p := TryAppend(env, l, x, now, next);
            && p.phase == Running(next) && p.l.cache == l.cache && p.l.store.kc == l.store.kc
            && l.store.log <= p.l.store.log && |p.l.store.log| == |l.store.log| + 1
            && SignedFrom(env, p.l.store.log, |l.store.log|, l.cache.value, now)
            && TailEpoch(p.l.store.log) == l.cache.value.epoch
  {
    hide SignBytesEpoch, InputOf, RotationTarget, HexEncode;
    SignedEntryChecks(env, l.store, l.cache.value, x, now);
  }

  lemma SignedFromGrows(env: Env, s: seq<Entry>, t: seq<Entry>, n: nat, c: Cached, now: Time)
    requires s <= t && n <= |s| && SignedFrom(env, s, n, c, now) && SignedFrom(env, t, |s|, c, now)
    ensures SignedFrom(env, t, n, c, now)
  {
    hide GenuineSig;
    forall i | n <= i < |t|
      ensures t[i].time == now && t[i].sig != "" && EffectiveEpoch(t[i].keyEpoch) == c.epoch && GenuineSig(env, c.key, t[i], c.epoch)
    {
      if i < |s| {
        assert t[i] == s[i];
      }
    }
  }

  lemma RefreshGoesThrough(env: Env, l: Local, done: nat, now: Time, newKey: string, budget: nat)
    requires l.cache.Some? && budget >= 3
    ensures var p := RunTask(env, l, Appending([], done), now, newKey, budget);
            p.phase == Returned(true) && p.l.cache == l.cache && Achieved(env, l.store, p.l.store, l.cache.value, [], done, now)
  {
    hide RunTask, AnchorSignBytes, HashOf;
    RunTaskOnce(env, l, Appending([], done), now, newKey, budget);
    RunTaskOnce(env, l, Anchoring(done), now, newKey, budget - 1);
    var m := l.(store := PutAnchor(env, l.store, l.cache.value, now));
    RunTaskOnce(env, m, Counting(done), now, newKey, budget - 2);
    assert Records(l.store.log) + IntentRecords([]) == Records(l.store.log);
  }

  lemma {:induction false} AppendingGoesThrough(env: Env, l: Local, todo: seq<Intent>, done: nat, now: Time, newKey: string, budget: nat)
    requires l.cache.Some? && 1 <= l.cache.value.epoch && TailEpoch(l.store.log) <= l.cache.value.epoch
    requires IntentsOk(todo) && budget >= |todo| + 3
    ensures var p := RunTask(env, l, Appending(todo, done), now, newKey, budget);
            p.phase == Returned(true) && p.l.cache == l.cache && Achieved(env, l.store, p.l.store, l.cache.value, todo, done, now)
    decreases |todo|
  {
    hide RunTask, TryAppend, AnchorsAll, SignedFrom, Records, IntentRecords, Chain.TailEpoch, PutAnchor;
    if todo == [] {
      RefreshGoesThrough(env, l, done, now, newKey, budget);
    } else {
      RunTaskOnce(env, l, Appending(todo, done), now, newKey, budget);
      AppendGoesThrough(env, l, todo[0], now, Appending(todo[1..], done + 1));
      var m := TryAppend(env, l, todo[0], now, Appending(todo[1..], done + 1)).l;
      AppendingGoesThrough(env, m, todo[1..], done + 1, now, newKey, budget - 1);
      var t := RunTask(env, m, Appending(todo[1..], done + 1), now, newKey, budget - 1).l.store;
      SignedFromGrows(env, m.store.log, t.log, |l.store.log|, l.cache.value, now);
      var k := BatchRecords(env, l, todo, done, now, newKey, budget);
      assert todo[..|todo|] == todo;
    }
  }

  /** The pair a batch would sign with: the cached or current one, or the first key it is about to create. */
  function SignerOf(l: Local, newKey: string): Cached {
    if KeyFor(l).Some? then KeyFor(l).value else Cached(newKey, FIRST_EPOCH)
  }

  /** A batch can go through: the writer's epoch is the tail's, or there is no key yet and it may create one. */
  predicate Ready(l: Local, mayCreate: bool) {
    if KeyFor(l).Some? then KeyFor(l).value.epoch == Tail(l.store.log)
    else mayCreate && Pointer(l.store.kc) == FIRST_EPOCH
  }

  lemma FirstKeyTail(env: Env, s: Store)
    requires StoreInv(env, s) && Pointer(s.kc) == FIRST_EPOCH && 1 !in s.kc.keys
    ensures Tail(s.log) == 1
  {
    if !ChainActive(s.log) {
      InactiveMeansLegacy(env, s);
    }
  }

  /** The store with the key the batch signs with. */
  function Keyed(l: Local, newKey: string): Store {
    if KeyFor(l).Some? then l.store else PutKey(l.store, FIRST_EPOCH, newKey)
  }

  /** A batch that can go through and whose store writes all succeed returns success, has recorded exactly its
      entries, each signed at the tail's epoch, has counted them all, and has anchored the whole log. */
  lemma BatchGoesThrough(env: Env, l: Local, todo: seq<Intent>, mayCreate: bool, now: Time, newKey: string, budget: nat)
    requires StoreInv(env, l.store) && CacheInv(l.store, l.cache) && Ready(l, mayCreate)
    requires IntentsOk(todo) && budget >= |todo| + 4
    ensures var p := RunTask(env, l, Secure(todo, mayCreate), now, newKey, budget);
            var c := SignerOf(l, newKey);
            && p.phase == Returned(true) && p.l.cache == Some(c) && c.epoch == Tail(l.store.log) == Pointer(l.store.kc)
            && Achieved(env, Keyed(l, newKey), p.l.store, c, todo, 0, now)
  {
    hide RunTask, StoreInv, Achieved, IntentsOk, Chain.TailEpoch;
    RunTaskOnce(env, l, Secure(todo, mayCreate), now, newKey, budget);
    StoreTailEpoch(env, l.store);
    StorePointer(env, l.store);
    if KeyFor(l).Some? {
      assert PairOk(l.store, KeyFor(l).value);
    } else {
      FirstKeyTail(env, l.store);
    }
    var m := SecureKey(l, todo, mayCreate, newKey).l;
    assert m.store == Keyed(l, newKey) && m.cache == Some(SignerOf(l, newKey));
    AppendingGoesThrough(env, m, todo, 0, now, newKey, budget - 1);
  }

  /** With enough successful store writes a batch of an honest writer returns success if and only if it is ready;
      otherwise it changes no store. */
  lemma BatchSucceedsIffReady(env: Env, l: Local, todo: seq<Intent>, mayCreate: bool, now: Time, newKey: string, budget: nat)
    requires StoreInv(env, l.store) && CacheInv(l.store, l.cache)
    requires IntentsOk(todo) && todo != [] && budget >= |todo| + 4
    ensures var p := RunTask(env, l, Secure(todo, mayCreate), now, newKey, budget);
            && (p.phase == Returned(true) <==> Ready(l, mayCreate))
            && (!Ready(l, mayCreate) ==> p.l.store == l.store)
  {
    hide RunTask, StoreInv, Achieved, CacheInv, IntentsOk;
    if Ready(l, mayCreate) {
      BatchGoesThrough(env, l, todo, mayCreate, now, newKey, budget);
    } else if KeyFor(l).Some? {
      BlockedBatchChangesNothing(env, l, todo, mayCreate, now, newKey, budget);
    } else {
      RunTaskOnce(env, l, Secure(todo, mayCreate), now, newKey, budget);
    }
  }

  // ---------- how far a section gets when a store write fails ----------

  predicate AppendsAndCounts(s: Store, t: Store, entries: nat, counted: nat) {
    && s.log <= t.log && |t.log| == |s.log| + entries
    && CounterOf(t.kc) == CounterOf(s.kc) + counted
  }

  lemma RefreshSpends(env: Env, l: Local, done: nat, now: Time, newKey: string, budget: nat)
    requires l.cache.Some?
    ensures var p := RunTask(env, l, Appending([], done), now, newKey, budget);
            && (p.phase == Returned(true) <==> budget >= 2)
            && AppendsAndCounts(l.store, p.l.store, 0, if budget >= 3 then done else 0)
  {
    hide RunTask, AnchorSignBytes, HashOf;
    BudgetSpent(env, l, Appending([], done), now, newKey);
    if budget >= 1 {
      RunTaskOnce(env, l, Appending([], done), now, newKey, budget);
      BudgetSpent(env, l, Anchoring(done), now, newKey);
    }
    if budget >= 2 {
      RunTaskOnce(env, l, Anchoring(done), now, newKey, budget - 1);
      var m := l.(store := PutAnchor(env, l.store, l.cache.value, now));
      BudgetSpent(env, m, Counting(done), now, newKey);
      if budget >= 3 {
        RunTaskOnce(env, m, Counting(done), now, newKey, budget - 2);
      }
    }
  }

  lemma {:induction false} AppendingSpends(env: Env, l: Local, todo: seq<Intent>, done: nat, now: Time, newKey: string, budget: nat)
    requires l.cache.Some? && 1 <= l.cache.value.epoch && TailEpoch(l.store.log) <= l.cache.value.epoch && IntentsOk(todo)
    ensures var p := RunTask(env, l, Appending(todo, done), now, newKey, budget);
            && (p.phase == Returned(true) <==> budget >= |todo| + 2)
            && AppendsAndCounts(l.store, p.l.store, if budget < |todo| then budget else |todo|,
                                if budget >= |todo| + 3 then done + |todo| else 0)
    decreases |todo|
  {
    hide RunTask, TryAppend, SignedFrom, Chain.TailEpoch;
    BudgetSpent(env, l, Appending(todo, done), now, newKey);
    if todo == [] {
      RefreshSpends(env, l, done, now, newKey, budget);
    } else if budget > 0 {
      RunTaskOnce(env, l, Appending(todo, done), now, newKey, budget);
      AppendGoesThrough(env, l, todo[0], now, Appending(todo[1..], done + 1));
      var m := TryAppend(env, l, todo[0], now, Appending(todo[1..], done + 1)).l;
      AppendingSpends(env, m, todo[1..], done + 1, now, newKey, budget - 1);
    }
  }

  /** A batch that can go through, cut off after any number of store writes: the first write goes to the key, the
      next to one entry each, then the anchor, then the counter. It is a success if and only if the anchor was
      written; only a failed counter write is forgiven, and it leaves the whole batch uncounted. */
  lemma BatchCutOff(env: Env, l: Local, todo: seq<Intent>, mayCreate: bool, now: Time, newKey: string, budget: nat)
    requires StoreInv(env, l.store) && CacheInv(l.store, l.cache) && Ready(l, mayCreate) && IntentsOk(todo)
    ensures var p := RunTask(env, l, Secure(todo, mayCreate), now, newKey, budget);
            && (p.phase == Returned(true) <==> budget >= |todo| + 3)
            && AppendsAndCounts(l.store, p.l.store,
                                if budget == 0 then 0 else if budget - 1 < |todo| then budget - 1 else |todo|,
                                if budget >= |todo| + 4 then |todo| else 0)
  {
    hide RunTask, StoreInv, IntentsOk, Chain.TailEpoch;
    BudgetSpent(env, l, Secure(todo, mayCreate), now, newKey);
    if budget > 0 {
      RunTaskOnce(env, l, Secure(todo, mayCreate), now, newKey, budget);
      StoreTailEpoch(env, l.store);
      StorePointer(env, l.store);
      if KeyFor(l).Some? {
        assert PairOk(l.store, KeyFor(l).value);
      } else {
        FirstKeyTail(env, l.store);
      }
      var m := SecureKey(l, todo, mayCreate, newKey).l;
      assert m.store == Keyed(l, newKey) && m.cache == Some(SignerOf(l, newKey));
      AppendingSpends(env, m, todo, 0, now, newKey, budget - 1);
    }
  }

  /** What the marker of a fresh rotation says: the epoch it opens and the fingerprint of that epoch's key, as a real
      entry linked to the last line and signed under the epoch it ends. */
  lemma FreshMarkerMeaning(env: Env, s: Store, now: Time, newKey: string)
    requires FIRST_EPOCH <= Pointer(s.kc) && CurrentPair(s.kc).Some? && Pointer(s.kc) < MAX_UINT32
    ensures var e := FreshMarker(env, s, now, newKey);
            && e.op == OP_ROTATE && e.target == "epoch:" + Decimal(Pointer(s.kc) + 1) && e.hash == HashOf(env, newKey) && !e.dryRun
            && e.time == now && e.prevHash == Link(env, Lines(env, s.log), |s.log|) && IsMarker(e)
            && EffectiveEpoch(e.keyEpoch) == Pointer(s.kc)
            && GenuineSig(env, CurrentPair(s.kc).value.key, e, Pointer(s.kc))
  {
    hide SignBytesEpoch, InputOf, RotationTarget, Decimal, HexEncode;
    SignedEntryChecks(env, s, CurrentPair(s.kc).value, MarkerIntent(env, newKey, Pointer(s.kc) + 1), now);
  }

  /** The same for a fresh rotation: key, marker, pointer, anchor, counter. The pointer moves only once the marker
      is in the log, and the marker is written only once its key is stored. */
  lemma FreshRotationCutOff(env: Env, s: Store, now: Time, newKey: string, budget: nat)
    requires StoreInv(env, s) && CurrentPair(s.kc).Some? && Pointer(s.kc) < MAX_UINT32 && Tail(s.log) == Pointer(s.kc)
    ensures var p := RunTask(env, Local(s, None), Rotating, now, newKey, budget);
            var t := p.l.store;
            var next := Pointer(s.kc) + 1;
            && (p.phase == Returned(true) <==> budget >= 4)
            && t.kc.keys == (if budget >= 1 then s.kc.keys[next := newKey] else s.kc.keys)
            && t.log == (if budget >= 2 then s.log + [FreshMarker(env, s, now, newKey)] else s.log)
            && Pointer(t.kc) == (if budget >= 3 then next else Pointer(s.kc))
            && (if budget >= 4 then AnchorsAll(env, t, now) && t.anchor.value.keyEpoch == DeclaredEpoch(next) else t.anchor == s.anchor)
            && CounterOf(t.kc) == CounterOf(s.kc) + if budget >= 5 then 1 else 0
  {
    hide RunTask, AnchorsAll, StoreInv, StartRotation, AnchorSignBytes, HashOf, SignedEntry, SignedInput, MarkerIntent, Chain.TailEpoch;
    var next := Pointer(s.kc) + 1;
    FreshStart(env, s, newKey);
    StoreTailEpoch(env, s);
    StorePointer(env, s);
    BudgetSpent(env, Local(s, None), Rotating, now, newKey);
    if budget >= 1 {
      RunTaskOnce(env, Local(s, None), Rotating, now, newKey, budget);
      PutKeyLeaves(s, next, newKey);
      MarkingSpends(env, PutKey(s, next, newKey), newKey, next, now, newKey, budget - 1);
    }
  }

  lemma MarkingSpends(env: Env, s: Store, key: string, epoch: uint32, now: Time, newKey: string, budget: nat)
    requires CurrentPair(s.kc).Some? && TailEpoch(s.log) <= Pointer(s.kc)
    ensures var p := RunTask(env, Local(s, None), Marking(key, epoch), now, newKey, budget);
            var t := p.l.store;
            && (p.phase == Returned(true) <==> budget >= 3)
            && t.kc.keys == s.kc.keys
            && t.log == (if budget >= 1 then s.log + [SignedEntry(env, s.log, CurrentPair(s.kc).value, MarkerIntent(env, key, epoch), now)] else s.log)
            && Pointer(t.kc) == (if budget >= 2 then epoch else Pointer(s.kc))
            && (if budget >= 3 then AnchorsAll(env, t, now) && t.anchor.value.keyEpoch == DeclaredEpoch(epoch) else t.anchor == s.anchor)
            && CounterOf(t.kc) == CounterOf(s.kc) + if budget >= 4 then 1 else 0
  {
    hide RunTask, Tick, AnchorsAll, PutPointer, SignedEntry, AppendSigned, CurrentPair, Chain.TailEpoch;
    var pair := CurrentPair(s.kc);
    var marked := AppendSigned(env, s, pair.value, MarkerIntent(env, key, epoch), now);
    MarkingTicks(env, s, key, epoch, now, newKey);
    BudgetSpent(env, Local(s, None), Marking(key, epoch), now, newKey);
    if budget >= 1 {
      RunTaskOnce(env, Local(s, None), Marking(key, epoch), now, newKey, budget);
      BudgetSpent(env, Local(marked, pair), Advancing(key, epoch), now, newKey);
    }
    if budget >= 2 {
      RunTaskOnce(env, Local(marked, pair), Advancing(key, epoch), now, newKey, budget - 1);
      ReanchoringSpends(env, PutPointer(marked, epoch), Cached(key, epoch), now, newKey, budget - 2);
    }
  }

  /** The marker and the pointer write of a rotation. */
  lemma MarkingTicks(env: Env, s: Store, key: string, epoch: uint32, now: Time, newKey: string)
    requires CurrentPair(s.kc).Some? && TailEpoch(s.log) <= Pointer(s.kc)
    ensures var pair := CurrentPair(s.kc);
            var x := MarkerIntent(env, key, epoch);
            var marked := AppendSigned(env, s, pair.value, x, now);
            && Tick(env, Local(s, None), Marking(key, epoch), now, newKey) == Progress(Local(marked, pair), Running(Advancing(key, epoch)))
            && Tick(env, Local(marked, pair), Advancing(key, epoch), now, newKey)
               == Progress(Local(PutPointer(marked, epoch), Some(Cached(key, epoch))), Running(Reanchoring(true)))
            && marked.log == s.log + [SignedEntry(env, s.log, pair.value, x, now)] && marked.kc == s.kc && marked.anchor == s.anchor
            && PutPointer(marked, epoch) == marked.(kc := s.kc.(pointer := Some(epoch)))
  {
    hide SignedEntry, SignedInput, SignBytesEpoch, MarkerIntent, Chain.TailEpoch;
  }

  lemma ReanchoringSpends(env: Env, s: Store, c: Cached, now: Time, newKey: string, budget: nat)
    ensures var p := RunTask(env, Local(s, Some(c)), Reanchoring(true), now, newKey, budget);
            var t := p.l.store;
            && (p.phase == Returned(true) <==> budget >= 1)
            && t.kc.keys == s.kc.keys && t.kc.pointer == s.kc.pointer && t.log == s.log
            && (if budget >= 1 then AnchorsAll(env, t, now) && t.anchor.value.keyEpoch == DeclaredEpoch(c.epoch) else t.anchor == s.anchor)
            && CounterOf(t.kc) == CounterOf(s.kc) + if budget >= 2 then 1 else 0
  {
    hide RunTask, AnchorSignBytes, HashOf;
    BudgetSpent(env, Local(s, Some(c)), Reanchoring(true), now, newKey);
    if budget >= 1 {
      RunTaskOnce(env, Local(s, Some(c)), Reanchoring(true), now, newKey, budget);
      var m := Local(PutAnchor(env, s, c, now), Some(c));
      BudgetSpent(env, m, Counting(1), now, newKey);
      if budget >= 2 {
        RunTaskOnce(env, m, Counting(1), now, newKey, budget - 1);
      }
    }
  }

  // ---------- what is refused ----------

  /** Without the pointer's key there is nothing to rotate, and nothing changes. */
  lemma KeylessRotationRefused(env: Env, l: Local, now: Time, newKey: string, budget: nat)
    requires CurrentPair(l.store.kc).None?
    ensures RunTask(env, l, Rotating, now, newKey, budget) == Progress(l, Returned(false))
  {
    hide RunTask;
    if budget == 0 {
      BudgetSpent(env, l, Rotating, now, newKey);
    } else {
      RunTaskOnce(env, l, Rotating, now, newKey, budget);
    }
  }

  /** On any stores, honest or not: a key that cannot be found is only ever created for the first epoch and by a
      writer that may; otherwise the batch is refused and nothing changes. */
  lemma LostKeyNeverReplaced(env: Env, l: Local, todo: seq<Intent>, mayCreate: bool, now: Time, newKey: string, budget: nat)
    requires KeyFor(l).None? && (!mayCreate || Pointer(l.store.kc) != FIRST_EPOCH)
    ensures RunTask(env, l, Secure(todo, mayCreate), now, newKey, budget) == Progress(l, Returned(false))
  {
    hide RunTask;
    if budget == 0 {
      BudgetSpent(env, l, Secure(todo, mayCreate), now, newKey);
    } else {
      RunTaskOnce(env, l, Secure(todo, mayCreate), now, newKey, budget);
    }
  }

  /** The key that the log's last line hands over to, if the stores hold it and the line vouches for it. */
  predicate HandedOver(env: Env, s: Store) {
    && s.log != []
    && TailEpoch(s.log) == NextEpoch(Pointer(s.kc))
    && KeyIndex(TailEpoch(s.log)) in s.kc.keys
    && s.log[|s.log| - 1].hash == HashOf(env, s.kc.keys[KeyIndex(TailEpoch(s.log))])
  }

  /** On any stores, honest or not: when the tail is ahead of the pointer, a rotation completes if and only if the
      last line vouches for the very next epoch's stored key; otherwise it is refused and nothing changes. */
  lemma CompletesIffHandedOver(env: Env, l: Local, now: Time, newKey: string, budget: nat)
    requires CurrentPair(l.store.kc).Some? && TailEpoch(l.store.log) > Pointer(l.store.kc) && budget >= 2
    ensures var p := RunTask(env, l, Rotating, now, newKey, budget);
            && (p.phase == Returned(true) <==> HandedOver(env, l.store))
            && (HandedOver(env, l.store) ==> Pointer(p.l.store.kc) == TailEpoch(l.store.log) && p.l.store.log == l.store.log
                                             && p.l.store.kc.keys == l.store.kc.keys)
            && (!HandedOver(env, l.store) ==> p.l == l)
  {
    hide RunTask, AnchorSignBytes, HashOf, Chain.TailEpoch, NextEpoch;
    RunTaskOnce(env, l, Rotating, now, newKey, budget);
    if HandedOver(env, l.store) {
      var m := StartRotation(env, l, newKey).l;
      RunTaskOnce(env, m, Reanchoring(false), now, newKey, budget - 1);
    }
  }
}
