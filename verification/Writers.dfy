/** What a writer does inside one critical section, one store write at a time.

    The stores are the log, the anchor file and the keychain. A writer also holds a cached key. A
    critical section is a `Task`; `Tick` performs its next store write and says what comes next, so a
    crash or a failed write can fall between any two of them.
  */
module Writers {
  import opened Text
  import opened Framing
  import opened Chain

  /** `issued` is the set of signatures ever made with an audit key: (key, signed bytes). The log holds the
      appended entries; its raw lines are `Lines(env, log)`. */
  datatype Store = Store(log: seq<Entry>, anchor: Option<Anchor>, kc: Keychain, issued: set<(string, string)>)

  datatype Cached = Cached(key: string, epoch: uint32)

  /** The stores together with the running writer's own cache. */
  datatype Local = Local(store: Store, cache: Option<Cached>)

  /** One requested log entry: everything the caller decides. */
  datatype Intent = Intent(op: string, target: string, digest: Digest, dryRun: bool)

  const EMPTY_STORE := Store([], None, Keychain(None, map[], None), {})

  // ---------- reading the stores ----------

  function Lines(env: Env, log: seq<Entry>): (lines: seq<string>)
    ensures |lines| == |log|
  {
    seq(|log|, i requires 0 <= i < |log| => env.marshal(log[i]))
  }

  function Pointer(kc: Keychain): uint32 {
    match kc.pointer
    case None => FIRST_EPOCH
    case Some(p) => p
  }

  function CounterOf(kc: Keychain): int {
    match kc.counter
    case None => 0
    case Some(n) => n
  }

  function CurrentPair(kc: Keychain): Option<Cached> {
    if KeyIndex(Pointer(kc)) in kc.keys then Some(Cached(kc.keys[KeyIndex(Pointer(kc))], Pointer(kc))) else None
  }

  /** The cached pair, or the keychain's current one. */
  function KeyFor(l: Local): Option<Cached> {
    if l.cache.Some? then l.cache else CurrentPair(l.store.kc)
  }

  function PrevHash(env: Env, log: seq<Entry>): string {
    if log == [] then GENESIS else HashOf(env, env.marshal(log[|log| - 1]))
  }

  predicate ChainActive(log: seq<Entry>) {
    log != [] && IsChained(log[|log| - 1])
  }

  // ---------- single store writes ----------

  function SignedInput(env: Env, log: seq<Entry>, x: Intent, now: Time): SignInput {
    SignInput(x.op, x.target, env.rfc3339(now.seconds), x.dryRun, PrevHash(env, log), x.digest)
  }

  function DeclaredEpoch(epoch: uint32): uint32 {
    if epoch > FIRST_EPOCH then epoch else 0
  }

  function SignedEntry(env: Env, log: seq<Entry>, signer: Cached, x: Intent, now: Time): Entry {
    Entry(now, x.op, x.target, HexEncode(x.digest), x.dryRun, PrevHash(env, log),
          HexEncode(env.mac(signer.key, SignBytesEpoch(SignedInput(env, log, x, now), signer.epoch))),
          DeclaredEpoch(signer.epoch))
  }

  function AppendSigned(env: Env, s: Store, signer: Cached, x: Intent, now: Time): Store {
    s.(log := s.log + [SignedEntry(env, s.log, signer, x, now)],
       issued := s.issued + {(signer.key, SignBytesEpoch(SignedInput(env, s.log, x, now), signer.epoch))})
  }

  function LegacyEntry(x: Intent, now: Time): Entry {
    Entry(now, x.op, x.target, HexEncode(x.digest), x.dryRun, "", "", 0)
  }

  /** The fallback when no key can be reached: chained, unsigned, and with no declared epoch. */
  function UnsignedEntry(env: Env, log: seq<Entry>, x: Intent, now: Time): Entry {
    Entry(now, x.op, x.target, HexEncode(x.digest), x.dryRun, PrevHash(env, log), "", 0)
  }

  function UnsealedAnchor(env: Env, log: seq<Entry>, epoch: uint32, now: Time): Anchor {
    Anchor(|log|, if log == [] then "" else HashOf(env, env.marshal(log[|log| - 1])), env.rfc3339(now.seconds), "",
           DeclaredEpoch(epoch))
  }

  function PutAnchor(env: Env, s: Store, signer: Cached, now: Time): Store {
    var a := UnsealedAnchor(env, s.log, signer.epoch, now);
    s.(anchor := Some(a.(hmac := HexEncode(env.mac(signer.key, AnchorSignBytes(a))))),
       issued := s.issued + {(signer.key, AnchorSignBytes(a))})
  }

  function PutKey(s: Store, epoch: nat, key: string): Store {
    s.(kc := s.kc.(keys := s.kc.keys[KeyIndex(epoch) := key]))
  }

  function PutPointer(s: Store, epoch: uint32): Store {
    s.(kc := s.kc.(pointer := Some(epoch)))
  }

  function AddCounter(s: Store, delta: nat): Store {
    s.(kc := s.kc.(counter := Some(CounterOf(s.kc) + delta)))
  }

  /** The first epoch's key also signs capability URLs. */
  function SignCapability(s: Store, c: Capability): Store
    requires 1 in s.kc.keys
  {
    s.(issued := s.issued + {(s.kc.keys[1], CapabilityBytes(c))})
  }

  // ---------- critical sections ----------

  datatype Task =
    | Secure(todo: seq<Intent>, mayCreate: bool)   // find the key, or create the first one
    | Appending(todo: seq<Intent>, done: nat)      // append the batch
    | Anchoring(done: nat)                         // rewrite the anchor
    | Counting(done: nat)                          // add the batch to the counter
    | Rotating                                     // start or resume a rotation
    | Marking(key: string, epoch: uint32)        // append the rotation marker
    | Advancing(key: string, epoch: uint32)      // advance the epoch pointer
    | Reanchoring(counts: bool)                    // rewrite the anchor under the new key
    | Refreshing                                   // the standalone anchor refresh

  datatype Phase = Running(task: Task) | Returned(ok: bool)

  datatype Progress = Progress(l: Local, phase: Phase)

  function Refuse(l: Local): Progress {
    Progress(l, Returned(false))
  }

  function MarkerIntent(env: Env, newKey: string, epoch: uint32): Intent {
    Intent(OP_ROTATE, MarkerTarget(epoch), env.sha(newKey), false)
  }

  function NextEpoch(epoch: uint32): uint32 {
    (epoch + 1) % (MAX_UINT32 + 1)
  }

  /** ensureKeyLocked, and hmacKey when no key may be created. */
  function SecureKey(l: Local, todo: seq<Intent>, mayCreate: bool, newKey: string): Progress {
    if KeyFor(l).Some? then Progress(l.(cache := KeyFor(l)), Running(Appending(todo, 0)))
    else if !mayCreate || Pointer(l.store.kc) != FIRST_EPOCH then Refuse(l)
    else Progress(Local(PutKey(l.store, FIRST_EPOCH, newKey), Some(Cached(newKey, FIRST_EPOCH))),
                  Running(Appending(todo, 0)))
  }

  /** appendNoRefresh: refuses when the log already speaks a newer epoch than the writer's key. */
  function TryAppend(env: Env, l: Local, x: Intent, now: Time, next: Task): Progress {
    var signer := KeyFor(l);
    if signer.None? then Refuse(l)
    else if TailEpoch(l.store.log) > signer.value.epoch then Refuse(l.(cache := signer))
    else Progress(Local(AppendSigned(env, l.store, signer.value, x, now), signer), Running(next))
  }

  /** The opening of RotateHMACKey, and all of completeRotationLocked up to the pointer write. */
  function StartRotation(env: Env, l: Local, newKey: string): Progress {
    var kc := l.store.kc;
    var current := Pointer(kc);
    var tail := TailEpoch(l.store.log);
    if KeyIndex(current) !in kc.keys then Refuse(l)
    else if tail > current then
      if tail != NextEpoch(current) || KeyIndex(tail) !in kc.keys || l.store.log == [] then Refuse(l)
      else
        var key := kc.keys[KeyIndex(tail)];
        if l.store.log[|l.store.log| - 1].hash != HashOf(env, key) then Refuse(l)
        else Progress(Local(PutPointer(l.store, tail), Some(Cached(key, tail))), Running(Reanchoring(false)))
    else
      Progress(l.(store := PutKey(l.store, NextEpoch(current), newKey)), Running(Marking(newKey, NextEpoch(current))))
  }

  /** The next store write of a critical section. `newKey` is the key it generates if it generates one. */
  function Tick(env: Env, l: Local, task: Task, now: Time, newKey: string): Progress {
    match task
    case Secure(todo, mayCreate) => SecureKey(l, todo, mayCreate, newKey)
    case Appending(todo, done) =>
      if todo == [] then Progress(l, Running(Anchoring(done)))
      else TryAppend(env, l, todo[0], now, Appending(todo[1..], done + 1))
    case Anchoring(done) =>
      if l.cache.None? then Refuse(l)
      else Progress(l.(store := PutAnchor(env, l.store, l.cache.value, now)), Running(Counting(done)))
    case Counting(done) => Progress(l.(store := AddCounter(l.store, done)), Returned(true))
    case Rotating => StartRotation(env, l, newKey)
    case Marking(key, epoch) => TryAppend(env, l, MarkerIntent(env, key, epoch), now, Advancing(key, epoch))
    case Advancing(key, epoch) =>
      Progress(Local(PutPointer(l.store, epoch), Some(Cached(key, epoch))), Running(Reanchoring(true)))
    case Reanchoring(counts) =>
      if l.cache.None? then Refuse(l)
      else Progress(l.(store := PutAnchor(env, l.store, l.cache.value, now)),
                    if counts then Running(Counting(1)) else Returned(true))
    case Refreshing =>
      var signer := CurrentPair(l.store.kc);
      if signer.None? then Progress(l, Returned(true))
      else Progress(l.(store := PutAnchor(env, l.store, signer.value, now)), Returned(true))
  }

  /** A failed store write ends the section; only a failed counter bump still counts as success. */
  function FailedWrite(l: Local, task: Task): Progress {
    Progress(l, Returned(task.Counting?))
  }

  function TaskRank(task: Task): nat {
    match task
    case Counting(_) => 1
    case Anchoring(_) => 2
    case Reanchoring(_) => 2
    case Advancing(_, _) => 3
    case Marking(_, _) => 4
    case Rotating => 5
    case Refreshing => 1
    case Appending(todo, _) => 3 + |todo|
    case Secure(todo, _) => 4 + |todo|
  }

  lemma TickProgresses(env: Env, l: Local, task: Task, now: Time, newKey: string)
    ensures var p := Tick(env, l, task, now, newKey).phase; p.Running? ==> TaskRank(p.task) < TaskRank(task)
  {
    hide AppendSigned, PutAnchor, PutKey, PutPointer, AddCounter, CurrentPair, MarkerIntent;
    hide Chain.TailEpoch, Chain.KeyIndex, Chain.HashOf, NextEpoch;
  }

  /** A section run on its own from `task`, whose store writes all succeed for `budget` ticks, after
      which the next one fails. */
  function RunTask(env: Env, l: Local, task: Task, now: Time, newKey: string, budget: nat): (p: Progress)
    ensures p.phase.Returned?
    decreases TaskRank(task)
  {
    if budget == 0 then FailedWrite(l, task)
    else
      var p := Tick(env, l, task, now, newKey);
      TickProgresses(env, l, task, now, newKey);
      if p.phase.Returned? then p else RunTask(env, p.l, p.phase.task, now, newKey, budget - 1)
  }

  lemma {:induction false} RunTaskOnce(env: Env, l: Local, task: Task, now: Time, newKey: string, budget: nat)
    requires budget > 0
    ensures var p := Tick(env, l, task, now, newKey);
            RunTask(env, l, task, now, newKey, budget)
            == if p.phase.Returned? then p else RunTask(env, p.l, p.phase.task, now, newKey, budget - 1)
  {
    hide Tick;
  }

  lemma BudgetSpent(env: Env, l: Local, task: Task, now: Time, newKey: string)
    ensures RunTask(env, l, task, now, newKey, 0) == FailedWrite(l, task)
  {
  }
}
