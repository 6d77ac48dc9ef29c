/** Many writers over the shared stores: the flock admits one critical section at a time, and a crash or
    a failed write can end it after any store write. */
module Machine {
  import opened Text
  import opened Framing
  import opened Chain
  import opened Writers
  import opened Invariant

  type WriterId = nat

  datatype Holder = Holder(writer: WriterId, task: Task)

  datatype System = System(store: Store, caches: map<WriterId, Cached>, lock: Option<Holder>)

  datatype Event =
    | Open(w: WriterId)                          // construct a writer: cache the current key if there is one
    | Begin(w: WriterId, task: Task)             // take the flock
    | Step(now: Time, newKey: string)            // the holder's next store write
    | Fail                                       // the holder's next store write fails
    | Crash(w: WriterId)                         // the process dies
    | LegacyAppend(x: Intent, now: Time)         // *Audit on a log without a chain
    | UnsignedAppend(x: Intent, now: Time)       // *Audit on a chain whose key it cannot reach
    | Mint(c: Capability)                        // sign a capability URL with the first key

  const EMPTY := System(EMPTY_STORE, map[], None)

  function CacheOf(s: System, w: WriterId): Option<Cached> {
    if w in s.caches then Some(s.caches[w]) else None
  }

  function SetCache(caches: map<WriterId, Cached>, w: WriterId, c: Option<Cached>): map<WriterId, Cached> {
    if c.Some? then caches[w := c.value] else caches - {w}
  }

  function Finish(s: System, w: WriterId, p: Progress): System {
    System(p.l.store, SetCache(s.caches, w, p.l.cache),
           if p.phase.Running? then Some(Holder(w, p.phase.task)) else None)
  }

  predicate IsEntryPoint(task: Task) {
    match task
    case Secure(todo, _) => todo != [] && forall i | 0 <= i < |todo| :: IntentOk(todo[i])
    case Rotating => true
    case Refreshing => true
    case _ => false
  }

  predicate Enabled(s: System, ev: Event) {
    match ev
    case Open(w) => w !in s.caches
    case Begin(_, task) => s.lock.None? && IsEntryPoint(task)
    case Step(_, _) => s.lock.Some?
    case Fail => s.lock.Some?
    case Crash(_) => true
    case LegacyAppend(x, _) => s.lock.None? && !ChainActive(s.store.log) && IntentOk(x)
    case UnsignedAppend(x, _) => s.lock.None? && ChainActive(s.store.log) && IntentOk(x)
    case Mint(c) => 1 in s.store.kc.keys && ShortCapability(c)
  }

  function Next(env: Env, s: System, ev: Event): System
    requires Enabled(s, ev)
  {
    match ev
    case Open(w) => s.(caches := SetCache(s.caches, w, CurrentPair(s.store.kc)))
    case Begin(w, task) => s.(lock := Some(Holder(w, task)))
    case Step(now, newKey) =>
      var h := s.lock.value;
      Finish(s, h.writer, Tick(env, Local(s.store, CacheOf(s, h.writer)), h.task, now, newKey))
    case Fail => s.(lock := None)
    case Crash(w) =>
      System(s.store, s.caches - {w}, if s.lock.Some? && s.lock.value.writer == w then None else s.lock)
    case LegacyAppend(x, now) => s.(store := s.store.(log := s.store.log + [LegacyEntry(x, now)]))
    case UnsignedAppend(x, now) =>
      s.(store := s.store.(log := s.store.log + [UnsignedEntry(env, s.store.log, x, now)]))
    case Mint(c) => s.(store := SignCapability(s.store, c))
  }

  /** The runs the guarantees are about: new lines read back, fewer than 2^32 - 1 rotations, and no
      chained-unsigned entry after the first rotation. */
  predicate InScope(env: Env, s: System, ev: Event)
    requires Enabled(s, ev)
  {
    && Readable(env, Next(env, s, ev).store.log)
    && (ev.Step? && s.lock.value.task.Rotating? ==> Pointer(s.store.kc) < MAX_UINT32)
    && (ev.UnsignedAppend? ==> TailEpoch(s.store.log) == FIRST_EPOCH)
  }

  ghost predicate Run(env: Env, s: System, evs: seq<Event>, t: System)
    decreases |evs|
  {
    if evs == [] then s == t
    else Enabled(s, evs[0]) && InScope(env, s, evs[0]) && Run(env, Next(env, s, evs[0]), evs[1..], t)
  }

  ghost predicate Reachable(env: Env, s: System) {
    exists evs: seq<Event> :: Run(env, EMPTY, evs, s)
  }

  // ---------- the system invariant ----------

  /** Entries of the running batch that the counter has yet to learn of. */
  function TaskInFlight(task: Task): nat {
    match task
    case Appending(_, done) => done
    case Anchoring(done) => done
    case Counting(done) => done
    case Advancing(_, _) => 1
    case Reanchoring(counts) => if counts then 1 else 0
    case _ => 0
  }

  function InFlight(s: System): nat {
    if s.lock.Some? then TaskInFlight(s.lock.value.task) else 0
  }

  predicate IntentsOk(todo: seq<Intent>) {
    forall i | 0 <= i < |todo| :: IntentOk(todo[i])
  }

  /** What holds of a critical section between two of its store writes. */
  predicate TaskInv(s: Store, cache: Option<Cached>, task: Task) {
    match task
    case Secure(todo, _) => IntentsOk(todo)
    case Appending(todo, _) => IntentsOk(todo) && cache.Some?
    case Anchoring(_) => cache.Some?
    case Counting(_) => true
    case Rotating => true
    case Marking(key, epoch) =>
      && epoch as int == Pointer(s.kc) + 1
      && Tail(s.log) == Pointer(s.kc)
      && Pointer(s.kc) in s.kc.keys
      && epoch in s.kc.keys && s.kc.keys[epoch] == key
    case Advancing(key, epoch) =>
      && epoch as int == Pointer(s.kc) + 1 == Tail(s.log)
      && epoch in s.kc.keys && s.kc.keys[epoch] == key
    case Reanchoring(_) => cache.Some? && cache.value.epoch == Pointer(s.kc)
    case Refreshing => true
  }

  predicate CacheInv(s: Store, cache: Option<Cached>) {
    cache.Some? ==> PairOk(s, cache.value)
  }

  predicate CounterInv(s: Store, inFlight: nat) {
    0 <= CounterOf(s.kc) && CounterOf(s.kc) + inFlight <= |s.log|
  }

  ghost predicate LocalInv(env: Env, l: Local, phase: Phase) {
    && StoreInv(env, l.store)
    && CacheInv(l.store, l.cache)
    && (phase.Running? ==> TaskInv(l.store, l.cache, phase.task))
    && CounterInv(l.store, if phase.Running? then TaskInFlight(phase.task) else 0)
  }

  /** Nothing a critical section does disturbs what the other writers rely on: the log only grows, the
      pointer only advances, the anchored count never falls, and a key the log has reached is never
      replaced. */
  predicate Grows(s: Store, t: Store) {
    && s.log <= t.log
    && Pointer(s.kc) <= Pointer(t.kc)
    && s.issued <= t.issued
    && (s.anchor.Some? ==> t.anchor.Some? && s.anchor.value.entryCount <= t.anchor.value.entryCount)
    && forall e | e in s.kc.keys && 1 <= e <= Tail(s.log) :: e in t.kc.keys && t.kc.keys[e] == s.kc.keys[e]
  }

  ghost predicate SystemInv(env: Env, s: System) {
    && LocalInv(env, Local(s.store, if s.lock.Some? then CacheOf(s, s.lock.value.writer) else None),
                if s.lock.Some? then Running(s.lock.value.task) else Returned(true))
    && forall w | w in s.caches :: PairOk(s.store, s.caches[w])
  }

  // ---------- one store write ----------

  lemma SecureKeeps(env: Env, l: Local, todo: seq<Intent>, mayCreate: bool, newKey: string)
    requires LocalInv(env, l, Running(Secure(todo, mayCreate)))
    ensures var p := SecureKey(l, todo, mayCreate, newKey);
            LocalInv(env, p.l, p.phase) && Grows(l.store, p.l.store)
  {
    hide Chain.ChainValid, Readable, HonestEntries, AnchorInv, IssuedInv;
    if KeyFor(l).None? && mayCreate && Pointer(l.store.kc) == FIRST_EPOCH {
      PutKeyKeeps(env, l.store, FIRST_EPOCH, newKey);
    }
  }

  lemma TryAppendKeeps(env: Env, l: Local, x: Intent, now: Time, next: Task)
    requires StoreInv(env, l.store) && CacheInv(l.store, l.cache)
    requires IntentOk(x) || MarkerOk(env, l.store, x)
    requires Readable(env, TryAppend(env, l, x, now, next).l.store.log)
    ensures var p := TryAppend(env, l, x, now, next);
            && StoreInv(env, p.l.store) && CacheInv(p.l.store, p.l.cache) && Grows(l.store, p.l.store)
            && p.l.store.kc == l.store.kc
            && (p.phase.Running? ==> && p.phase.task == next && p.l.cache.Some?
                                     && |p.l.store.log| == |l.store.log| + 1
                                     && Tail(l.store.log) == Pointer(l.store.kc)
                                     && Tail(p.l.store.log) == Tail(l.store.log) + if x.op == OP_ROTATE then 1 else 0)
            && (p.phase.Returned? ==> p.l.store == l.store)
  {
    hide Chain.ChainValid, Readable, HonestEntries, AnchorInv, IssuedInv, SignedEntry, Framing.SignBytesEpoch;
    var signer := KeyFor(l);
    if signer.Some? && TailEpoch(l.store.log) <= signer.value.epoch {
      var log' := TryAppend(env, l, x, now, next).l.store.log;
      assert ReadsBack(env, log'[|l.store.log|]) by {
        ReadableAt(env, log', |l.store.log|);
      }
      SignedAppendKeeps(env, l.store, signer.value, x, now);
    }
  }

  lemma ReadableAt(env: Env, log: seq<Entry>, i: nat)
    requires Readable(env, log) && i < |log|
    ensures ReadsBack(env, log[i])
  {
  }

  lemma FreshRotationKeeps(env: Env, l: Local, newKey: string)
    requires LocalInv(env, l, Running(Rotating)) && Pointer(l.store.kc) < MAX_UINT32
    requires Pointer(l.store.kc) in l.store.kc.keys && Tail(l.store.log) == Pointer(l.store.kc)
    ensures var next := Pointer(l.store.kc) + 1;
            var m := l.(store := PutKey(l.store, next, newKey));
            LocalInv(env, m, Running(Marking(newKey, next))) && Grows(l.store, m.store)
  {
    hide Chain.ChainValid, Readable, HonestEntries, AnchorInv, IssuedInv;
    PutKeyKeeps(env, l.store, Pointer(l.store.kc) + 1, newKey);
  }

  lemma ResumedRotationKeeps(env: Env, l: Local)
    requires LocalInv(env, l, Running(Rotating)) && Pointer(l.store.kc) < MAX_UINT32
    requires Tail(l.store.log) == Pointer(l.store.kc) + 1 && Tail(l.store.log) in l.store.kc.keys
    ensures var tail := Tail(l.store.log);
            var m := Local(PutPointer(l.store, tail), Some(Cached(l.store.kc.keys[tail], tail)));
            LocalInv(env, m, Running(Reanchoring(false))) && Grows(l.store, m.store)
  {
    hide Chain.ChainValid, Readable, HonestEntries, AnchorInv, IssuedInv;
    PutPointerKeeps(env, l.store, Pointer(l.store.kc) + 1);
  }

  lemma StartRotationKeeps(env: Env, l: Local, newKey: string)
    requires LocalInv(env, l, Running(Rotating)) && Pointer(l.store.kc) < MAX_UINT32
    ensures var p := StartRotation(env, l, newKey);
            LocalInv(env, p.l, p.phase) && Grows(l.store, p.l.store)
  {
    hide StoreInv, TaskInv, PutKey, PutPointer, Grows, Chain.HashOf, Chain.TailEpoch, NextEpoch;
    NextEpochIsSuccessor(Pointer(l.store.kc));
    StorePointer(env, l.store);
    StoreTailEpoch(env, l.store);
    GrowsReflexive(l.store);
    if Pointer(l.store.kc) in l.store.kc.keys {
      if Tail(l.store.log) == Pointer(l.store.kc) {
        FreshRotationKeeps(env, l, newKey);
      } else if Tail(l.store.log) in l.store.kc.keys {
        ResumedRotationKeeps(env, l);
      }
    }
  }

  lemma NextEpochIsSuccessor(epoch: uint32)
    requires epoch < MAX_UINT32
    ensures NextEpoch(epoch) == epoch + 1
  {
  }

  lemma StorePointer(env: Env, s: Store)
    requires StoreInv(env, s)
    ensures PointerInv(s)
  {
  }

  lemma StoreTailEpoch(env: Env, s: Store)
    requires StoreInv(env, s)
    ensures TailEpoch(s.log) == Tail(s.log)
  {
    TailEpochByPosition(env, s);
  }

  lemma GrowsReflexive(s: Store)
    ensures Grows(s, s)
  {
  }

  lemma MarkingKeeps(env: Env, l: Local, key: string, epoch: uint32, now: Time)
    requires LocalInv(env, l, Running(Marking(key, epoch)))
    requires Readable(env, Tick(env, l, Marking(key, epoch), now, "").l.store.log)
    ensures var p := Tick(env, l, Marking(key, epoch), now, "");
            LocalInv(env, p.l, p.phase) && Grows(l.store, p.l.store)
  {
    hide Chain.ChainValid, Readable, HonestEntries, AnchorInv, IssuedInv, AppendSigned, Framing.SignBytesEpoch;
    TryAppendKeeps(env, l, MarkerIntent(env, key, epoch), now, Advancing(key, epoch));
  }

  lemma AppendingKeeps(env: Env, l: Local, todo: seq<Intent>, done: nat, now: Time)
    requires LocalInv(env, l, Running(Appending(todo, done)))
    requires Readable(env, Tick(env, l, Appending(todo, done), now, "").l.store.log)
    ensures var p := Tick(env, l, Appending(todo, done), now, "");
            LocalInv(env, p.l, p.phase) && Grows(l.store, p.l.store)
  {
    hide Chain.ChainValid, Readable, HonestEntries, AnchorInv, IssuedInv, AppendSigned, Framing.SignBytesEpoch;
    if todo != [] {
      TryAppendKeeps(env, l, todo[0], now, Appending(todo[1..], done + 1));
    }
  }

  lemma PutAnchorCovers(env: Env, s: Store, signer: Cached, now: Time)
    requires StoreInv(env, s)
    ensures var t := PutAnchor(env, s, signer, now);
            && t.kc == s.kc && t.log == s.log && s.issued <= t.issued
            && t.anchor.Some? && t.anchor.value.entryCount == |s.log|
            && (s.anchor.Some? ==> s.anchor.value.entryCount <= |s.log|)
  {
    hide AnchorSignBytes, Chain.ChainValid, Readable, HonestEntries, IssuedInv, HashOf;
  }

  lemma PutAnchorLocal(env: Env, l: Local, task: Task, signer: Cached, now: Time)
    requires LocalInv(env, l, Running(task)) && PairOk(l.store, signer)
    ensures var t := PutAnchor(env, l.store, signer, now);
            && StoreInv(env, t) && CacheInv(t, l.cache) && Grows(l.store, t)
            && t.kc == l.store.kc && t.log == l.store.log
  {
    hide StoreInv, PutAnchor, TaskInv;
    PutAnchorKeeps(env, l.store, signer, now);
    PutAnchorCovers(env, l.store, signer, now);
  }

  /** Every store write of every critical section keeps the invariant of the stores, of the running
      writer and of everybody else. */
  lemma TickKeeps(env: Env, l: Local, task: Task, now: Time, newKey: string)
    requires LocalInv(env, l, Running(task))
    requires task.Rotating? ==> Pointer(l.store.kc) < MAX_UINT32
    requires Readable(env, Tick(env, l, task, now, newKey).l.store.log)
    ensures LocalInv(env, Tick(env, l, task, now, newKey).l, Tick(env, l, task, now, newKey).phase)
    ensures Grows(l.store, Tick(env, l, task, now, newKey).l.store)
  {
    hide Chain.ChainValid, Readable, HonestEntries, AnchorInv, IssuedInv, PutAnchor, TryAppend, StartRotation, SecureKey;
    match task {
      case Secure(todo, mayCreate) => SecureKeeps(env, l, todo, mayCreate, newKey);
      case Appending(todo, done) => AppendingKeeps(env, l, todo, done, now);
      case Anchoring(_) => PutAnchorLocal(env, l, task, l.cache.value, now);
      case Counting(done) => AddCounterKeeps(env, l.store, done);
      case Rotating => StartRotationKeeps(env, l, newKey);
      case Marking(key, epoch) => MarkingKeeps(env, l, key, epoch, now);
      case Advancing(_, epoch) => PutPointerKeeps(env, l.store, epoch);
      case Reanchoring(_) => PutAnchorLocal(env, l, task, l.cache.value, now);
      case Refreshing =>
        if CurrentPair(l.store.kc).Some? {
          PutAnchorLocal(env, l, task, CurrentPair(l.store.kc).value, now);
        }
    }
  }

  // ---------- one event, and every run ----------

  lemma PairSurvives(s: Store, t: Store, c: Cached)
    requires Grows(s, t) && PairOk(s, c) && PointerInv(s)
    ensures PairOk(t, c)
  {
  }

  lemma StepKeeps(env: Env, s: System, now: Time, newKey: string)
    requires SystemInv(env, s) && s.lock.Some? && InScope(env, s, Step(now, newKey))
    ensures SystemInv(env, Next(env, s, Step(now, newKey)))
    ensures Grows(s.store, Next(env, s, Step(now, newKey)).store)
  {
    hide Chain.ChainValid, Readable, HonestEntries, AnchorInv, IssuedInv, Tick;
    var h := s.lock.value;
    var l := Local(s.store, CacheOf(s, h.writer));
    TickKeeps(env, l, h.task, now, newKey);
    var t := Next(env, s, Step(now, newKey));
    forall w | w in t.caches ensures PairOk(t.store, t.caches[w]) {
      if w != h.writer {
        PairSurvives(s.store, t.store, s.caches[w]);
      }
    }
  }

  lemma UnlockedAppendKeeps(env: Env, s: System, ev: Event)
    requires SystemInv(env, s) && Enabled(s, ev) && InScope(env, s, ev)
    requires ev.LegacyAppend? || ev.UnsignedAppend?
    ensures SystemInv(env, Next(env, s, ev))
    ensures Grows(s.store, Next(env, s, ev).store)
  {
    hide Chain.ChainValid, HonestEntries, AnchorInv, IssuedInv;
    ReadableAt(env, Next(env, s, ev).store.log, |s.store.log|);
    if ev.LegacyAppend? {
      LegacyAppendKeeps(env, s.store, ev.x, ev.now);
    } else {
      UnsignedAppendKeeps(env, s.store, ev.x, ev.now);
    }
  }

  lemma MintKeeps(env: Env, s: System, c: Capability)
    requires SystemInv(env, s) && Enabled(s, Mint(c))
    ensures SystemInv(env, Next(env, s, Mint(c)))
    ensures Grows(s.store, Next(env, s, Mint(c)).store)
  {
    hide Chain.ChainValid, Readable, HonestEntries, AnchorInv, IssuedInv, CapabilityBytes;
    SignCapabilityKeeps(env, s.store, c);
  }

  /** Every event keeps the system invariant, and none takes anything back. */
  lemma EventKeeps(env: Env, s: System, ev: Event)
    requires SystemInv(env, s) && Enabled(s, ev) && InScope(env, s, ev)
    ensures SystemInv(env, Next(env, s, ev))
    ensures Grows(s.store, Next(env, s, ev).store)
  {
    hide Chain.ChainValid, Readable, HonestEntries, AnchorInv, IssuedInv, Tick;
    if ev.Step? {
      StepKeeps(env, s, ev.now, ev.newKey);
    } else if ev.LegacyAppend? || ev.UnsignedAppend? {
      UnlockedAppendKeeps(env, s, ev);
    } else if ev.Mint? {
      MintKeeps(env, s, ev.c);
    }
  }

  lemma GrowsTransitive(s: Store, t: Store, u: Store)
    requires Grows(s, t) && Grows(t, u)
    ensures Grows(s, u)
  {
    EpochAtPrefix(s.log, t.log, |s.log|);
    EpochMonotone(t.log, |s.log|, |t.log|);
  }

  /** So does every run, and over any run the log is append-only, the anchored count never falls and no key the
      log has reached is replaced. */
  lemma {:induction false} RunKeeps(env: Env, s: System, evs: seq<Event>, t: System)
    requires SystemInv(env, s) && Run(env, s, evs, t)
    ensures SystemInv(env, t) && Grows(s.store, t.store)
    decreases |evs|
  {
    hide SystemInv, Grows, Next;
    if evs == [] {
      GrowsReflexive(s.store);
    } else {
      var u := Next(env, s, evs[0]);
      EventKeeps(env, s, evs[0]);
      RunKeeps(env, u, evs[1..], t);
      GrowsTransitive(s.store, u.store, t.store);
    }
  }

  lemma ReachableInv(env: Env, s: System)
    requires Reachable(env, s)
    ensures SystemInv(env, s)
  {
    var evs: seq<Event> :| Run(env, EMPTY, evs, s);
    EmptyStoreInv(env);
    assert SystemInv(env, EMPTY);
    RunKeeps(env, EMPTY, evs, s);
  }
}
