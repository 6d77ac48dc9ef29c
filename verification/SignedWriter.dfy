/** The signing writer as an object: it updates its cached key and the shared stores in place.

    Each method is proved equal to a run of the store-write steps of `Writers`, so everything proved of
    those steps holds of the object. Store writes are numbered within a call; `budget` is how many of
    them succeed before the environment makes one fail, and `readable` whether the keychain answers reads:
    a refused read is an error, never a missing key.
  */
module SignedWriter {
  import opened Text
  import opened Framing
  import opened Chain
  import opened Verifier
  import opened Writers
  import opened Invariant
  import opened Machine
  import opened Guarantees
  import opened Rotation
  import opened FileWrites
  import opened Sidecars

  /** The log file, the anchor file and the keychain of one host, shared by all its writers. */
  class Host {
    var log: seq<Entry>
    var anchor: Option<Anchor>
    var pointer: Option<uint32>
    var keys: map<nat, string>
    var counter: Option<int>
    ghost var issued: set<(string, string)>

    constructor ()
      ensures Contents() == EMPTY_STORE
    {
      log, anchor, pointer, keys, counter, issued := [], None, None, map[], None, {};
    }

    ghost function Contents(): Store
      reads this
    {
      Store(log, anchor, Keychain(pointer, keys, counter), issued)
    }

    function Pointer(): uint32
      reads this
    {
      if pointer.Some? then pointer.value else FIRST_EPOCH
    }

    function TailEpoch(): uint32
      reads this
    {
      Chain.TailEpoch(log)
    }
  }

  class SignedAudit {
    const env: Env
    const host: Host
    var key: Option<Cached>

    ghost function State(): Local
      reads this, host
    {
      Local(host.Contents(), key)
    }

    /** Probes the keychain read-only: caches the current key when there is one. */
    constructor (env: Env, host: Host)
      ensures this.env == env && this.host == host
      ensures key == CurrentPair(host.Contents().kc)
    {
      this.env := env;
      this.host := host;
      var p := host.Pointer();
      key := if KeyIndex(p) in host.keys then Some(Cached(host.keys[KeyIndex(p)], p)) else None;
    }

    /** The plain writer's delegate starts with an empty cache. */
    constructor Delegate(env: Env, host: Host)
      ensures this.env == env && this.host == host && key.None?
    {
      this.env := env;
      this.host := host;
      key := None;
    }

    /** The cached pair, else the keychain's current one; nothing when that is absent or cannot be read. */
    method HmacKey(readable: bool) returns (r: Option<Cached>)
      modifies this
      ensures r == if old(key).Some? || readable then KeyFor(old(State())) else None
      ensures State() == if r.Some? then old(State()).(cache := r) else old(State())
    {
      if key.Some? {
        return key;
      }
      if !readable {
        return None;
      }
      var p := host.Pointer();
      if KeyIndex(p) !in host.keys {
        return None;
      }
      key := Some(Cached(host.keys[KeyIndex(p)], p));
      r := key;
    }

    /** Finds the key, or creates the first one; never replaces a rotated key that went missing, and never
        creates one while the keychain cannot be read. */
    method EnsureKeyLocked(newKey: string, readable: bool, ghost todo: seq<Intent>) returns (ok: bool)
      modifies this, host
      ensures var p := if old(key).Some? || readable then SecureKey(old(State()), todo, true, newKey) else Refuse(old(State()));
              State() == p.l && ok == p.phase.Running?
    {
      var k := HmacKey(readable);
      if k.Some? {
        return true;
      }
      if !readable {
        return false;
      }
      if host.Pointer() != FIRST_EPOCH {
        return false;
      }
      host.keys := host.keys[1 := newKey];
      key := Some(Cached(newKey, FIRST_EPOCH));
      ok := true;
    }

    method ComputePrevHash() returns (h: string)
      ensures h == PrevHash(env, host.log)
    {
      if host.log == [] {
        return GENESIS;
      }
      h := HashOf(env, env.marshal(host.log[|host.log| - 1]));
    }

    /** Appends one signed, chained entry, unless the log already speaks a newer epoch than the key. */
    method AppendNoRefresh(x: Intent, now: Time, readable: bool, ghost next: Task) returns (ok: bool)
      modifies this, host
      ensures var p := if old(key).Some? || readable then TryAppend(env, old(State()), x, now, next) else Refuse(old(State()));
              State() == p.l && ok == p.phase.Running?
      ensures ok ==> key.Some?
    {
      hide SignBytesEpoch, Chain.TailEpoch;
      var k := HmacKey(readable);
      if k.None? {
        return false;
      }
      if host.TailEpoch() > k.value.epoch {
        return false;
      }
      var prev := ComputePrevHash();
      var input := SignInput(x.op, x.target, env.rfc3339(now.seconds), x.dryRun, prev, x.digest);
      var bytes := SignBytesEpoch(input, k.value.epoch);
      var entry := Entry(now, x.op, x.target, HexEncode(x.digest), x.dryRun, prev,
                         HexEncode(env.mac(k.value.key, bytes)), 0);
      if k.value.epoch > FIRST_EPOCH {
        entry := entry.(keyEpoch := k.value.epoch);
      }
      host.log := host.log + [entry];
      host.issued := host.issued + {(k.value.key, bytes)};
      ok := true;
    }

    method WriteAnchorWithKey(k: Cached, now: Time)
      modifies host
      ensures State() == old(State()).(store := PutAnchor(env, old(State()).store, k, now))
    {
      var count := |host.log|;
      var lastHash := "";
      if count > 0 {
        lastHash := HashOf(env, env.marshal(host.log[count - 1]));
      }
      var a := Anchor(count, lastHash, env.rfc3339(now.seconds), "", 0);
      if k.epoch > FIRST_EPOCH {
        a := a.(keyEpoch := k.epoch);
      }
      var bytes := AnchorSignBytes(a);
      host.anchor := Some(a.(hmac := HexEncode(env.mac(k.key, bytes))));
      host.issued := host.issued + {(k.key, bytes)};
    }

    method AddToCounter(delta: nat)
      modifies host
      ensures State() == old(State()).(store := AddCounter(old(State()).store, delta))
    {
      var n := 0;
      if host.counter.Some? {
        n := host.counter.value;
      }
      host.counter := Some(n + delta);
    }

    /** Anchor and counter refresh after a batch of `done` entries. A failed counter bump is tolerated. */
    method RefreshLocked(done: nat, now: Time, newKey: string, budget: nat) returns (ok: bool)
      requires key.Some?
      modifies host
      ensures var p := RunTask(env, old(State()), Anchoring(done), now, newKey, budget);
              State() == p.l && p.phase == Returned(ok)
    {
      hide PutAnchor, AddCounter;
      ghost var start := State();
      if budget == 0 {
        return false;
      }
      RunTaskOnce(env, start, Anchoring(done), now, newKey, budget);
      WriteAnchorWithKey(key.value, now);
      if budget == 1 {
        return true;
      }
      RunTaskOnce(env, State(), Counting(done), now, newKey, budget - 1);
      AddToCounter(done);
      ok := true;
    }

    /** The signed-append core shared with the plain writer: append, then refresh. */
    method AppendAndRefreshLocked(x: Intent, now: Time, newKey: string, budget: nat) returns (ok: bool)
      requires key.Some?
      modifies this, host
      ensures var p := RunTask(env, old(State()), Appending([x], 0), now, newKey, budget);
              State() == p.l && p.phase == Returned(ok)
    {
      ok := AppendLast(x, 0, now, newKey, budget);
    }

    /** The last entry of a batch, of which `done` are already in the log, and the batch's refresh. */
    method AppendLast(x: Intent, done: nat, now: Time, newKey: string, budget: nat) returns (ok: bool)
      requires key.Some?
      modifies this, host
      ensures var p := RunTask(env, old(State()), Appending([x], done), now, newKey, budget);
              State() == p.l && p.phase == Returned(ok)
    {
      hide TryAppend, PutAnchor, AddCounter, RunTask;
      BudgetSpent(env, State(), Appending([x], done), now, newKey);
      if budget == 0 {
        return false;
      }
      RunTaskOnce(env, State(), Appending([x], done), now, newKey, budget);
      AppendedNext(env, State(), x, now, Appending([x][1..], done + 1));
      ok := AppendNoRefresh(x, now, true, Appending([x][1..], done + 1));
      if !ok {
        return;
      }
      assert [x][1..] == [];
      BudgetSpent(env, State(), Appending([], done + 1), now, newKey);
      if budget == 1 {
        return false;
      }
      RunTaskOnce(env, State(), Appending([], done + 1), now, newKey, budget - 1);
      ok := RefreshLocked(done + 1, now, newKey, budget - 2);
    }

    /** Append: one signed entry and its refresh, creating the first key if there is none. */
    method Append(x: Intent, now: Time, newKey: string, readable: bool, budget: nat) returns (ok: bool)
      modifies this, host
      ensures var p := RunTask(env, old(State()), Secure([x], true), now, newKey, if old(key).Some? || readable then budget else 0);
              State() == p.l && p.phase == Returned(ok)
    {
      hide TryAppend, SecureKey, PutAnchor, AddCounter, RunTask;
      BudgetSpent(env, State(), Secure([x], true), now, newKey);
      if budget == 0 {
        return false;
      }
      RunTaskOnce(env, State(), Secure([x], true), now, newKey, budget);
      SecuredNext(State(), [x], newKey);
      ok := EnsureKeyLocked(newKey, readable, [x]);
      if ok {
        ok := AppendLast(x, 0, now, newKey, budget - 1);
      }
    }

    /** Copies the target to its backup file and records it; a backup whose entry is refused, or fails to be
        written, is removed again. */
    method BackupNoRefresh(files: Files, w: FileWrite, now: Time, fails: bool, ghost next: Task) returns (ok: bool)
      requires w.target in files.disk && key.Some?
      modifies this, host, files
      ensures var p := if fails then Refuse(old(State())) else TryAppend(env, old(State()), BackupIntent(env, old(files.disk), w), now, next);
              State() == p.l && ok == p.phase.Running?
      ensures files.disk == if ok then BackupDisk(old(files.disk), w) else old(files.disk) - {Sidecar(w.target, w.stamp)}
      ensures key.Some?
    {
      hide TryAppend, Sidecar;
      var intent := BackupIntent(env, files.disk, w);
      var bak := Sidecar(w.target, w.stamp);
      files.disk := files.disk[bak := files.disk[w.target]];
      AppendedNext(env, State(), intent, now, next);
      if fails {
        ok := false;
      } else {
        ok := AppendNoRefresh(intent, now, true, next);
      }
      if !ok {
        files.disk := files.disk - {bak};
      }
    }

    /** One signed file write: key, backup file and its entry, write entry, one refresh, then the file. A
        backup whose entry is refused is removed again; after any other failure it stays. */
    method WriteFileLocked(files: Files, w: FileWrite, now: Time, newKey: string, readable: bool, budget: nat) returns (ok: bool)
      requires w.signed
      modifies this, host, files
      ensures var todo := WriteBatch(env, old(files.disk), w);
              var p := RunTask(env, old(State()), Secure(todo, true), now, newKey, if old(key).Some? || readable then budget else 0);
              State() == p.l && p.phase == Returned(ok)
      ensures ok ==> Site(files.disk, Records(host.log)) == ApplyWrite(env, Site(old(files.disk), Records(old(host.log))), w)
      ensures !ok && |host.log| > |old(host.log)| ==> files.disk == BackupDisk(old(files.disk), w)
      ensures !ok && |host.log| == |old(host.log)| ==>
                files.disk == old(files.disk) || files.disk == old(files.disk) - {Sidecar(w.target, w.stamp)}
    {
      hide TryAppend, SecureKey, PutAnchor, AddCounter, RunTask, Sidecar, Records, SignedInput, BackupLog;
      ghost var before, disk := State(), files.disk;
      ghost var todo := WriteBatch(env, disk, w);
      SignedBatchRecords(env, before, disk, w, now, newKey, if key.Some? || readable then budget else 0);
      var left := budget;
      BudgetSpent(env, State(), Secure(todo, true), now, newKey);
      if left == 0 {
        return false;
      }
      RunTaskOnce(env, State(), Secure(todo, true), now, newKey, left);
      SecuredNext(State(), todo, newKey);
      ok := EnsureKeyLocked(newKey, readable, todo);
      if !ok {
        return;
      }
      left := left - 1;
      var entryCount := 0;
      if w.target in files.disk {
        BudgetSpent(env, State(), Appending(todo, 0), now, newKey);
        if left > 0 {
          RunTaskOnce(env, State(), Appending(todo, 0), now, newKey, left);
          AppendedNext(env, State(), todo[0], now, Appending(todo[1..], 1));
        }
        ok := BackupNoRefresh(files, w, now, left == 0, Appending(todo[1..], 1));
        if !ok {
          return;
        }
        left := left - 1;
        entryCount := 1;
        assert todo[1..] == [WriteIntent(env, w)];
      }
      RunTaskLog(env, State(), Appending([WriteIntent(env, w)], entryCount), now, newKey, left);
      ok := AppendLast(WriteIntent(env, w), entryCount, now, newKey, left);
      if ok {
        files.disk := files.disk[w.target := w.content];
      }
    }

    /** Finishes a half-done rotation: adopts the stored key only if the marker's fingerprint matches it. */
    method CompleteRotationLocked(oldEpoch: uint32, newEpoch: uint32, now: Time, newKey: string, budget: nat) returns (ok: bool)
      requires budget > 0 && KeyIndex(host.Pointer()) in host.keys
      requires oldEpoch == host.Pointer() && newEpoch == host.TailEpoch() && newEpoch > oldEpoch
      modifies this, host
      ensures var p := RunTask(env, old(State()), Rotating, now, newKey, budget);
              State() == p.l && p.phase == Returned(ok)
    {
      hide PutAnchor, Chain.TailEpoch, RunTask, HashOf;
      RunTaskOnce(env, State(), Rotating, now, newKey, budget);
      if newEpoch != NextEpoch(oldEpoch) || KeyIndex(newEpoch) !in host.keys || host.log == [] {
        return false;
      }
      var k := host.keys[KeyIndex(newEpoch)];
      if host.log[|host.log| - 1].hash != HashOf(env, k) {
        return false;
      }
      host.pointer := Some(newEpoch);
      key := Some(Cached(k, newEpoch));
      BudgetSpent(env, State(), Reanchoring(false), now, newKey);
      if budget == 1 {
        return false;
      }
      RunTaskOnce(env, State(), Reanchoring(false), now, newKey, budget - 1);
      WriteAnchorWithKey(key.value, now);
      ok := true;
    }

    /** Rotates the key: new key first, then the marker, then the pointer, then the anchor and counter; or
        completes the rotation it finds half done. It starts by reading the keychain, cached key or not. */
    method RotateHMACKey(now: Time, newKey: string, readable: bool, budget: nat) returns (ok: bool)
      modifies this, host
      ensures var p := RunTask(env, old(State()), Rotating, now, newKey, if readable then budget else 0);
              State() == p.l && p.phase == Returned(ok)
    {
      hide TryAppend, PutAnchor, AddCounter, Chain.TailEpoch, RunTask, HashOf;
      BudgetSpent(env, State(), Rotating, now, newKey);
      if budget == 0 || !readable {
        return false;
      }
      var oldEpoch := host.Pointer();
      var tail := host.TailEpoch();
      if KeyIndex(oldEpoch) in host.keys && tail > oldEpoch {
        ok := CompleteRotationLocked(oldEpoch, tail, now, newKey, budget);
        return;
      }
      RunTaskOnce(env, State(), Rotating, now, newKey, budget);
      if KeyIndex(oldEpoch) !in host.keys {
        return false;
      }
      var newEpoch := NextEpoch(oldEpoch);
      host.keys := host.keys[KeyIndex(newEpoch) := newKey];
      BudgetSpent(env, State(), Marking(newKey, newEpoch), now, newKey);
      if budget == 1 {
        return false;
      }
      RunTaskOnce(env, State(), Marking(newKey, newEpoch), now, newKey, budget - 1);
      AppendedNext(env, State(), MarkerIntent(env, newKey, newEpoch), now, Advancing(newKey, newEpoch));
      ok := AppendNoRefresh(MarkerIntent(env, newKey, newEpoch), now, readable, Advancing(newKey, newEpoch));
      if !ok {
        return;
      }
      BudgetSpent(env, State(), Advancing(newKey, newEpoch), now, newKey);
      if budget == 2 {
        return false;
      }
      RunTaskOnce(env, State(), Advancing(newKey, newEpoch), now, newKey, budget - 2);
      host.pointer := Some(newEpoch);
      key := Some(Cached(newKey, newEpoch));
      BudgetSpent(env, State(), Reanchoring(true), now, newKey);
      if budget == 3 {
        return false;
      }
      RunTaskOnce(env, State(), Reanchoring(true), now, newKey, budget - 3);
      WriteAnchorWithKey(key.value, now);
      BudgetSpent(env, State(), Counting(1), now, newKey);
      if budget == 4 {
        return true;
      }
      RunTaskOnce(env, State(), Counting(1), now, newKey, budget - 4);
      AddToCounter(1);
      ok := true;
    }
  }

  lemma SecuredNext(l: Local, todo: seq<Intent>, newKey: string)
    ensures var p := SecureKey(l, todo, true, newKey);
            if p.phase.Running? then p.phase == Running(Appending(todo, 0)) && p.l.cache.Some? else p.phase == Returned(false)
    ensures SecureKey(l, todo, true, newKey).l.store.log == l.store.log
  {
  }

  lemma AppendedNext(env: Env, l: Local, x: Intent, now: Time, next: Task)
    ensures var p := TryAppend(env, l, x, now, next).phase; p == Running(next) || p == Returned(false)
    ensures l.cache.Some? ==> TryAppend(env, l, x, now, next).l.cache.Some?
    ensures var p := TryAppend(env, l, x, now, next);
            |p.l.store.log| == |l.store.log| + if p.phase.Running? then 1 else 0
  {
  }

  /** What one call of the object achieves on a quiet host, whichever of its store writes fails: the
      stores keep their invariant, nothing is taken back, and the verifier passes them unless the first
      anchor is still to be written. */
  lemma CallsAreSafe(env: Env, l: Local, task: Task, now: Time, newKey: string, budget: nat)
    requires IsEntryPoint(task) && StoreInv(env, l.store) && CacheInv(l.store, l.cache) && CounterInv(l.store, 0)
    requires task.Rotating? ==> Pointer(l.store.kc) < MAX_UINT32
    requires Readable(env, RunTask(env, l, task, now, newKey, budget).l.store.log)
    ensures var t := RunTask(env, l, task, now, newKey, budget).l.store;
            && StoreInv(env, t) && Grows(l.store, t)
            && (Passes(VerifySnapshot(env, t)) <==> !(CurrentPair(t.kc).Some? && t.anchor.None?))
  {
    hide StoreInv, Grows, RunTask, Readable, CacheInv;
    RunTaskKeeps(env, l, task, now, newKey, budget);
    SnapshotPasses(env, RunTask(env, l, task, now, newKey, budget).l.store);
  }
}
