/** Key rotation: what holds between its steps, that it recovers from every crash point, and that a half
    finished one blocks every signed append.
  */
module Rotation {
  import opened Text
  import opened Chain
  import opened Verifier
  import opened Writers
  import opened Invariant
  import opened Machine
  import opened Guarantees

  predicate LastIsMarkerFor(log: seq<Entry>, epoch: nat) {
    log != [] && IsMarker(log[|log| - 1]) && RotationTarget(log[|log| - 1].target) == epoch
  }

  /** The rotation state of a store: the tail is the pointer's epoch, or one more, and one more exactly
      when the last line is the marker of the next epoch; every marker carries the fingerprint of the key
      stored for the epoch it opens, and every entry is signed with the key of its own position. */
  ghost predicate RotationState(env: Env, s: Store) {
    && (Tail(s.log) == Pointer(s.kc) || Tail(s.log) == Pointer(s.kc) + 1)
    && (Tail(s.log) == Pointer(s.kc) + 1 <==> LastIsMarkerFor(s.log, Pointer(s.kc) + 1))
    && (forall i | 0 <= i < |s.log| && IsMarker(s.log[i]) :: MarkerBound(env, s, i))
    && (forall i | 0 <= i < |s.log| && s.log[i].sig != "" :: SignedUnderPosition(env, s, i))
  }

  predicate MarkerBound(env: Env, s: Store, i: nat)
    requires i < |s.log|
  {
    var next := EpochAt(s.log, i) + 1;
    RotationTarget(s.log[i].target) == next && next in s.kc.keys && s.log[i].hash == HashOf(env, s.kc.keys[next])
  }

  predicate SignedUnderPosition(env: Env, s: Store, i: nat)
    requires i < |s.log|
  {
    var epoch := EpochAt(s.log, i);
    epoch <= MAX_UINT32 && epoch in s.kc.keys && GenuineSig(env, s.kc.keys[epoch], s.log[i], epoch)
  }

  lemma MarkerIsBound(env: Env, s: Store, i: nat)
    requires i < |s.log| && EntryOk(View(env, s), i) && IsMarker(s.log[i])
    ensures MarkerBound(env, s, i)
  {
    hide GenuineSig, Link;
  }

  lemma SignedAtPosition(env: Env, s: Store, i: nat)
    requires i < |s.log| && EntryOk(View(env, s), i) && s.log[i].sig != ""
    ensures SignedUnderPosition(env, s, i)
  {
    hide GenuineSig, Link, HashOf, RotationTarget;
  }

  lemma TailAheadMeansMarker(env: Env, s: Store)
    requires StoreInv(env, s)
    ensures Tail(s.log) == Pointer(s.kc) + 1 <==> LastIsMarkerFor(s.log, Pointer(s.kc) + 1)
  {
    hide HonestEntries, KeysInv, AnchorInv, IssuedInv, Readable, GenuineSig, HashOf;
    if s.log != [] {
      assert EntryOk(View(env, s), |s.log| - 1);
    }
  }

  /** Every reachable state is in this rotation state, and every writer's cached pair is the keychain's
      key for an epoch the pointer has reached. */
  lemma RotationInvariant(env: Env, s: System)
    requires Reachable(env, s)
    ensures RotationState(env, s.store)
    ensures forall w | w in s.caches :: PairOk(s.store, s.caches[w])
  {
    hide StoreInv;
    ReachableInv(env, s);
    InvGivesStoreInv(env, s);
    TailAheadMeansMarker(env, s.store);
    StorePointer(env, s.store);
    StoreEntriesOk(env, s.store);
    forall i | 0 <= i < |s.store.log| && IsMarker(s.store.log[i]) ensures MarkerBound(env, s.store, i) {
      MarkerIsBound(env, s.store, i);
    }
    forall i | 0 <= i < |s.store.log| && s.store.log[i].sig != "" ensures SignedUnderPosition(env, s.store, i) {
      SignedAtPosition(env, s.store, i);
    }
  }

  lemma StoreEntriesOk(env: Env, s: Store)
    requires StoreInv(env, s)
    ensures forall i | 0 <= i < |s.log| :: EntryOk(View(env, s), i)
  {
  }

  // ---------- recovery ----------

  /** A crash-free section on a quiet store, run to its end from a cold cache. */
  function RotateFrom(env: Env, s: Store, now: Time, newKey: string): Progress {
    RunTask(env, Local(s, None), Rotating, now, newKey, 5)
  }

  /** The marker a fresh rotation would append. */
  function FreshMarker(env: Env, s: Store, now: Time, newKey: string): Entry
    requires CurrentPair(s.kc).Some? && Pointer(s.kc) < MAX_UINT32
  {
    SignedEntry(env, s.log, CurrentPair(s.kc).value, MarkerIntent(env, newKey, Pointer(s.kc) + 1), now)
  }

  /** The store after the anchor of a completed rotation, and after its counter. */
  lemma ReanchoringRuns(env: Env, l: Local, counts: bool, now: Time, newKey: string, budget: nat)
    requires budget >= 2 && l.cache.Some?
    ensures var t := PutAnchor(env, l.store, l.cache.value, now);
            RunTask(env, l, Reanchoring(counts), now, newKey, budget)
            == Progress(l.(store := if counts then AddCounter(t, 1) else t), Returned(true))
  {
    hide PutAnchor, AddCounter;
    RunTaskOnce(env, l, Reanchoring(counts), now, newKey, budget);
    var m := l.(store := PutAnchor(env, l.store, l.cache.value, now));
    RunTaskOnce(env, m, Counting(1), now, newKey, budget - 1);
  }

  lemma ResumeFindsKey(env: Env, s: Store)
    requires StoreInv(env, s) && Tail(s.log) == Pointer(s.kc) + 1
    ensures s.log != [] && Tail(s.log) in s.kc.keys
    ensures s.log[|s.log| - 1].hash == HashOf(env, s.kc.keys[Tail(s.log)])
  {
    hide HonestEntries, AnchorInv, IssuedInv, Readable, GenuineSig, EntryOk, HashOf;
    var last := |s.log| - 1;
    StoreEntriesOk(env, s);
    MarkerIsBound(env, s, last);
    assert EpochAt(s.log, last) + 1 == Tail(s.log);
  }

  lemma ResumedStart(env: Env, s: Store, newKey: string)
    requires StoreInv(env, s) && CurrentPair(s.kc).Some? && Pointer(s.kc) < MAX_UINT32
    requires Tail(s.log) == Pointer(s.kc) + 1
    ensures Tail(s.log) in s.kc.keys
    ensures StartRotation(env, Local(s, None), newKey)
         == Progress(Local(PutPointer(s, Tail(s.log)), Some(Cached(s.kc.keys[Tail(s.log)], Tail(s.log)))),
                     Running(Reanchoring(false)))
  {
    hide StoreInv, PutPointer, HashOf, EpochAt, TailEpoch, NextEpoch, RotationTarget;
    NextEpochIsSuccessor(Pointer(s.kc));
    StoreTailEpoch(env, s);
    ResumeFindsKey(env, s);
  }

  lemma FreshStart(env: Env, s: Store, newKey: string)
    requires StoreInv(env, s) && CurrentPair(s.kc).Some? && Pointer(s.kc) < MAX_UINT32
    requires Tail(s.log) == Pointer(s.kc)
    ensures StartRotation(env, Local(s, None), newKey)
         == Progress(Local(PutKey(s, Pointer(s.kc) + 1, newKey), None), Running(Marking(newKey, Pointer(s.kc) + 1)))
    ensures CurrentPair(PutKey(s, Pointer(s.kc) + 1, newKey).kc) == CurrentPair(s.kc)
  {
    hide StoreInv, HashOf, EpochAt, TailEpoch, NextEpoch, RotationTarget;
    NextEpochIsSuccessor(Pointer(s.kc));
    StoreTailEpoch(env, s);
    StorePointer(env, s);
  }

  lemma MarkingRuns(env: Env, s: Store, key: string, epoch: uint32, now: Time, newKey: string, budget: nat)
    requires budget >= 4 && CurrentPair(s.kc).Some? && TailEpoch(s.log) <= Pointer(s.kc)
    ensures var marked := AppendSigned(env, s, CurrentPair(s.kc).value, MarkerIntent(env, key, epoch), now);
            var c := Cached(key, epoch);
            RunTask(env, Local(s, None), Marking(key, epoch), now, newKey, budget)
            == Progress(Local(AddCounter(PutAnchor(env, PutPointer(marked, epoch), c, now), 1), Some(c)), Returned(true))
  {
    hide PutAnchor, PutPointer, AddCounter, AppendSigned, MarkerIntent, RunTask, TailEpoch;
    var pair := CurrentPair(s.kc);
    var marked := AppendSigned(env, s, pair.value, MarkerIntent(env, key, epoch), now);
    RunTaskOnce(env, Local(s, None), Marking(key, epoch), now, newKey, budget);
    RunTaskOnce(env, Local(marked, pair), Advancing(key, epoch), now, newKey, budget - 1);
    ReanchoringRuns(env, Local(PutPointer(marked, epoch), Some(Cached(key, epoch))), true, now, newKey, budget - 2);
  }

  lemma ResumedRun(env: Env, s: Store, now: Time, newKey: string)
    requires StoreInv(env, s) && CurrentPair(s.kc).Some? && Pointer(s.kc) < MAX_UINT32
    requires Tail(s.log) == Pointer(s.kc) + 1
    ensures Tail(s.log) in s.kc.keys
    ensures var c := Cached(s.kc.keys[Tail(s.log)], Tail(s.log));
            RotateFrom(env, s, now, newKey)
            == Progress(Local(PutAnchor(env, PutPointer(s, Tail(s.log)), c, now), Some(c)), Returned(true))
  {
    hide StoreInv, PutAnchor, PutPointer, HashOf, EpochAt, RunTask, StartRotation;
    ResumeFindsKey(env, s);
    ResumedStart(env, s, newKey);
    var c := Cached(s.kc.keys[Tail(s.log)], Tail(s.log));
    RunTaskOnce(env, Local(s, None), Rotating, now, newKey, 5);
    ReanchoringRuns(env, Local(PutPointer(s, Tail(s.log)), Some(c)), false, now, newKey, 4);
  }

  lemma FreshRun(env: Env, s: Store, now: Time, newKey: string)
    requires StoreInv(env, s) && CurrentPair(s.kc).Some? && Pointer(s.kc) < MAX_UINT32
    requires Tail(s.log) == Pointer(s.kc)
    ensures var next := Pointer(s.kc) + 1;
            var c := Cached(newKey, next);
            var marked := AppendSigned(env, PutKey(s, next, newKey), CurrentPair(s.kc).value, MarkerIntent(env, newKey, next), now);
            RotateFrom(env, s, now, newKey)
            == Progress(Local(AddCounter(PutAnchor(env, PutPointer(marked, next), c, now), 1), Some(c)), Returned(true))
  {
    hide StoreInv, PutAnchor, PutPointer, AddCounter, AppendSigned, MarkerIntent, RunTask, StartRotation, PutKey;
    var next := Pointer(s.kc) + 1;
    FreshStart(env, s, newKey);
    RunTaskOnce(env, Local(s, None), Rotating, now, newKey, 5);
    StoreTailEpoch(env, s);
    PutKeyLeaves(s, next, newKey);
    MarkingRuns(env, PutKey(s, next, newKey), newKey, next, now, newKey, 4);
  }

  lemma PutKeyLeaves(s: Store, epoch: nat, key: string)
    ensures PutKey(s, epoch, key).log == s.log && Pointer(PutKey(s, epoch, key).kc) == Pointer(s.kc)
  {
  }

  lemma {:induction false} RunTaskKeeps(env: Env, l: Local, task: Task, now: Time, newKey: string, budget: nat)
    requires LocalInv(env, l, Running(task))
    requires task.Rotating? ==> Pointer(l.store.kc) < MAX_UINT32
    requires Readable(env, RunTask(env, l, task, now, newKey, budget).l.store.log)
    ensures LocalInv(env, RunTask(env, l, task, now, newKey, budget).l, Returned(true))
    ensures Grows(l.store, RunTask(env, l, task, now, newKey, budget).l.store)
    ensures l.store.log <= RunTask(env, l, task, now, newKey, budget).l.store.log
    decreases TaskRank(task)
  {
    hide StoreInv, TaskInv, CacheInv, Tick, Readable;
    if budget > 0 {
      RunTaskOnce(env, l, task, now, newKey, budget);
      TickProgresses(env, l, task, now, newKey);
      var p := Tick(env, l, task, now, newKey);
      var q := RunTask(env, l, task, now, newKey, budget);
      if p.phase.Running? {
        RunTaskLog(env, p.l, p.phase.task, now, newKey, budget - 1);
      }
      ReadablePrefix(env, p.l.store.log, q.l.store.log);
      TickKeeps(env, l, task, now, newKey);
      if p.phase.Running? {
        TickLeavesRotating(env, l, task, now, newKey);
        RunTaskKeeps(env, p.l, p.phase.task, now, newKey, budget - 1);
        GrowsTransitive(l.store, p.l.store, q.l.store);
      }
    } else {
      GrowsReflexive(l.store);
    }
  }

  lemma TickLeavesRotating(env: Env, l: Local, task: Task, now: Time, newKey: string)
    ensures var p := Tick(env, l, task, now, newKey).phase; p.Running? ==> !p.task.Rotating?
  {
    hide AppendSigned, PutAnchor, PutKey, PutPointer, AddCounter, CurrentPair, MarkerIntent, Chain.TailEpoch, Chain.HashOf;
  }

  lemma {:induction false} RunTaskLog(env: Env, l: Local, task: Task, now: Time, newKey: string, budget: nat)
    ensures l.store.log <= RunTask(env, l, task, now, newKey, budget).l.store.log
    decreases TaskRank(task)
  {
    hide Tick;
    if budget > 0 {
      RunTaskOnce(env, l, task, now, newKey, budget);
      TickProgresses(env, l, task, now, newKey);
      TickLog(env, l, task, now, newKey);
      var p := Tick(env, l, task, now, newKey);
      if p.phase.Running? {
        RunTaskLog(env, p.l, p.phase.task, now, newKey, budget - 1);
      }
    }
  }

  lemma TickLog(env: Env, l: Local, task: Task, now: Time, newKey: string)
    ensures l.store.log <= Tick(env, l, task, now, newKey).l.store.log
  {
    hide SignedEntry, SignedInput, UnsealedAnchor, MarkerIntent, Chain.TailEpoch, Chain.HashOf, CurrentPair;
  }

  lemma ReadablePrefix(env: Env, es: seq<Entry>, fs: seq<Entry>)
    requires es <= fs && Readable(env, fs)
    ensures Readable(env, es)
  {
    forall i | 0 <= i < |es| ensures ReadsBack(env, es[i]) {
      assert es[i] == fs[i];
    }
  }

  /** Rotation recovers from every crash point: on any store a crash may have left, one rerun of the
      rotation succeeds, whether it starts afresh or finishes what it finds. It advances the pointer by
      exactly one, to the tail, leaves every earlier line and every known key in place, appends a marker
      and counts it only when fresh, and the verifier passes the result. */
  lemma RotationRecovers(env: Env, s: Store, now: Time, newKey: string)
    requires StoreInv(env, s) && CounterInv(s, 0) && CurrentPair(s.kc).Some? && Pointer(s.kc) < MAX_UINT32
    requires ReadsBack(env, FreshMarker(env, s, now, newKey))
    ensures var p := RotateFrom(env, s, now, newKey);
            var t := p.l.store;
            && p.phase == Returned(true)
            && Pointer(t.kc) == Pointer(s.kc) + 1 == Tail(t.log)
            && StoreInv(env, t) && Grows(s, t)
            && (if Tail(s.log) == Pointer(s.kc)
                then t.log == s.log + [FreshMarker(env, s, now, newKey)] && CounterOf(t.kc) == CounterOf(s.kc) + 1
                else t.log == s.log && CounterOf(t.kc) == CounterOf(s.kc))
            && p.l.cache == CurrentPair(t.kc)
            && Passes(VerifySnapshot(env, t))
  {
    hide StoreInv, RotateFrom, RunTask, Grows;
    StorePointer(env, s);
    var p := RotateFrom(env, s, now, newKey);
    if Tail(s.log) == Pointer(s.kc) {
      FreshRun(env, s, now, newKey);
    } else {
      ResumedRun(env, s, now, newKey);
    }
    RotatedReadable(env, s, p.l.store.log, FreshMarker(env, s, now, newKey));
    RotateKeeps(env, s, now, newKey);
    StorePointer(env, p.l.store);
    RotatedTail(env, s, p.l.store);
    SnapshotPasses(env, p.l.store);
  }

  /** In particular a rerun recovers whatever state the writers can reach, once the lock is free again. */
  lemma RotationRecoversFromCrash(env: Env, s: System, now: Time, newKey: string)
    requires Reachable(env, s) && CurrentPair(s.store.kc).Some? && Pointer(s.store.kc) < MAX_UINT32
    requires ReadsBack(env, FreshMarker(env, s.store, now, newKey))
    ensures var p := RotateFrom(env, s.store, now, newKey);
            && p.phase == Returned(true)
            && Pointer(p.l.store.kc) == Pointer(s.store.kc) + 1 == Tail(p.l.store.log)
            && Passes(VerifySnapshot(env, p.l.store))
  {
    hide RotateFrom, VerifySnapshot, Passes;
    ReachableInv(env, s);
    InvGivesStoreInv(env, s);
    RotationRecovers(env, s.store, now, newKey);
  }

  datatype Preview = Preview(oldEpoch: uint32, newEpoch: uint32, resumed: bool)

  /** The dry run: it reads the pointer and the last line and changes nothing. */
  function RotatePreview(s: Store): Preview {
    if TailEpoch(s.log) > Pointer(s.kc) then Preview(Pointer(s.kc), TailEpoch(s.log), true)
    else Preview(Pointer(s.kc), NextEpoch(Pointer(s.kc)), false)
  }

  /** The dry run forecasts the rotation: the epoch it moves to, and whether a marker will be added. */
  lemma PreviewForecasts(env: Env, s: Store, now: Time, newKey: string)
    requires StoreInv(env, s) && CounterInv(s, 0) && CurrentPair(s.kc).Some? && Pointer(s.kc) < MAX_UINT32
    requires ReadsBack(env, FreshMarker(env, s, now, newKey))
    ensures var t := RotateFrom(env, s, now, newKey).l.store;
            && Pointer(t.kc) == RotatePreview(s).newEpoch
            && RotatePreview(s).resumed == (t.log == s.log)
  {
    hide RotateFrom, VerifySnapshot, Passes, FreshMarker, Grows, PairOk, AppendSigned, ChainValid;
    TailEpochByPosition(env, s);
    StorePointer(env, s);
    NextEpochIsSuccessor(Pointer(s.kc));
    RotationRecovers(env, s, now, newKey);
    assert forall e :: |s.log + [e]| != |s.log|;
  }

  lemma RotatedReadable(env: Env, s: Store, log: seq<Entry>, marker: Entry)
    requires StoreInv(env, s) && ReadsBack(env, marker) && (log == s.log || log == s.log + [marker])
    ensures Readable(env, log)
  {
  }

  lemma RotateKeeps(env: Env, s: Store, now: Time, newKey: string)
    requires StoreInv(env, s) && CounterInv(s, 0) && Pointer(s.kc) < MAX_UINT32
    requires Readable(env, RotateFrom(env, s, now, newKey).l.store.log)
    ensures var t := RotateFrom(env, s, now, newKey).l.store;
            StoreInv(env, t) && CounterInv(t, 0) && Grows(s, t)
  {
    hide StoreInv, Grows, RunTask, Readable;
    RunTaskKeeps(env, Local(s, None), Rotating, now, newKey, 5);
  }

  lemma RotatedTail(env: Env, s: Store, t: Store)
    requires StoreInv(env, s) && PointerInv(t) && Pointer(t.kc) == Pointer(s.kc) + 1
    requires t.log == s.log || (Tail(s.log) == Pointer(s.kc) && |t.log| == |s.log| + 1 && s.log <= t.log)
    ensures Tail(t.log) == Pointer(t.kc)
  {
    EpochAtPrefix(s.log, t.log, |s.log|);
  }

  // ---------- what a half-finished rotation, or a stale cache, blocks ----------

  /** A batch whose writer's epoch is not the tail's, in particular while a rotation is half done or the writer's
      cache predates one, leaves all the stores as they were and reports failure. */
  lemma BlockedBatchChangesNothing(env: Env, l: Local, todo: seq<Intent>, mayCreate: bool, now: Time, newKey: string, budget: nat)
    requires StoreInv(env, l.store) && CacheInv(l.store, l.cache) && KeyFor(l).Some? && todo != []
    requires KeyFor(l).value.epoch != Tail(l.store.log)
    ensures var p := RunTask(env, l, Secure(todo, mayCreate), now, newKey, budget);
            p.l.store == l.store && p.phase == Returned(false)
  {
    hide Chain.ChainValid, Readable, HonestEntries, IssuedInv, AnchorInv, AppendSigned, MarkerIntent;
    TailEpochByPosition(env, l.store);
    if budget > 0 {
      RunTaskOnce(env, l, Secure(todo, mayCreate), now, newKey, budget);
      if budget > 1 {
        RunTaskOnce(env, l.(cache := KeyFor(l)), Appending(todo, 0), now, newKey, budget - 1);
      }
    }
  }

  /** While the tail is ahead of the pointer no writer holds the tail's epoch, so no signed append can
      change the log. */
  lemma HalfRotationBlocksAppends(env: Env, l: Local, todo: seq<Intent>, mayCreate: bool, now: Time, newKey: string, budget: nat)
    requires StoreInv(env, l.store) && CacheInv(l.store, l.cache) && todo != []
    requires Tail(l.store.log) == Pointer(l.store.kc) + 1
    ensures RunTask(env, l, Secure(todo, mayCreate), now, newKey, budget).l.store == l.store
  {
    hide Chain.ChainValid, Readable, HonestEntries, IssuedInv, AnchorInv, RunTask;
    BlockedBatchChangesNothing(env, l, todo, mayCreate, now, newKey, budget);
  }

  // ---------- the end of the epoch counter ----------

  /** Every key the log has reached is still there. */
  predicate KeysStay(s: Store, t: Store) {
    forall e | e in s.kc.keys && 1 <= e <= Tail(s.log) :: e in t.kc.keys && t.kc.keys[e] == s.kc.keys[e]
  }

  /** At the last 32-bit epoch the next one wraps to 0, whose account is the first epoch's. So the first
      store write of a fresh rotation spares every key the log has reached exactly when the pointer is short
      of that epoch, or the new key happens to be the first one: this is why runs stop short of it. */
  lemma RotationSparesKeysIffNoWrap(env: Env, l: Local, newKey: string)
    requires StoreInv(env, l.store) && Pointer(l.store.kc) in l.store.kc.keys && 1 in l.store.kc.keys
    requires Tail(l.store.log) == Pointer(l.store.kc)
    ensures KeysStay(l.store, StartRotation(env, l, newKey).l.store)
       <==> Pointer(l.store.kc) < MAX_UINT32 || newKey == l.store.kc.keys[1]
  {
    hide StoreInv;
    StoreTailEpoch(env, l.store);
    StorePointer(env, l.store);
    var s, t := l.store, StartRotation(env, l, newKey).l.store;
    assert t == PutKey(s, NextEpoch(Pointer(s.kc)), newKey);
    if Pointer(s.kc) < MAX_UINT32 {
      NextEpochIsSuccessor(Pointer(s.kc));
    } else {
      assert t.kc.keys == s.kc.keys[1 := newKey];
    }
  }
}
