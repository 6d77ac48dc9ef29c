/** The plain writer. On a log without a chain it appends legacy entries; on a chained log it signs
    through a lazily built delegate, and falls back to a chained but unsigned entry when it cannot.
  */
module PlainWriter {
  import opened Text
  import opened Framing
  import opened Chain
  import opened Writers
  import opened Invariant
  import opened Machine
  import opened Rotation
  import opened SignedWriter
  import opened FileWrites
  import opened Progress
  import opened Sidecars
  import opened ReversePlan

  /** How one append went. */
  datatype Route = Legacy | Signed(ok: bool) | Unsigned

  /** The stores and the delegate's cache after one append. `reachable` says whether there is a delegate, and
      it has a cached key or a keychain that answers. */
  function AppendRoute(env: Env, l: Local, x: Intent, reachable: bool, now: Time, newKey: string, budget: nat)
    : (Local, Route)
  {
    if !ChainActive(l.store.log) then
      (l.(store := l.store.(log := l.store.log + [LegacyEntry(x, now)])), Legacy)
    else if reachable && KeyFor(l).Some? then
      var p := RunTask(env, l.(cache := KeyFor(l)), Appending([x], 0), now, newKey, budget);
      (p.l, Signed(p.phase.ok))
    else
      (l.(store := l.store.(log := l.store.log + [UnsignedEntry(env, l.store.log, x, now)])), Unsigned)
  }

  /** Every route that succeeds records exactly the intent; a signed one that fails, at most that. */
  lemma RouteRecords(env: Env, l: Local, x: Intent, reachable: bool, now: Time, newKey: string, budget: nat)
    ensures var (m, route) := AppendRoute(env, l, x, reachable, now, newKey, budget);
            var after := Records(l.store.log) + IntentRecords([x]);
            && Records(l.store.log) <= Records(m.store.log) <= after
            && (route != Signed(false) ==> Records(m.store.log) == after)
  {
    hide RunTask, Records, IntentRecords;
    var (m, route) := AppendRoute(env, l, x, reachable, now, newKey, budget);
    match route {
      case Legacy => OneRecord(l.store.log, LegacyEntry(x, now), x);
      case Unsigned => OneRecord(l.store.log, UnsignedEntry(env, l.store.log, x, now), x);
      case Signed(_) =>
        var k := BatchRecords(env, l.(cache := KeyFor(l)), [x], 0, now, newKey, budget);
        assert [x][..k] == if k == 0 then [] else [x];
        NoIntentRecords();
    }
  }

  lemma OneRecord(log: seq<Entry>, e: Entry, x: Intent)
    requires RecordOf(e) == Record(x.op, x.target, HexEncode(x.digest), x.dryRun)
    ensures Records(log + [e]) == Records(log) + IntentRecords([x])
  {
    RecordsOfMore(log, e);
  }

  lemma NoIntentRecords()
    ensures IntentRecords([]) == []
  {
  }

  lemma PlainApplyWrite(env: Env, log: seq<Record>, disk: Disk, w: FileWrite)
    requires !w.signed
    ensures ApplyWrite(env, Site(disk, log), w)
         == Site(BackupDisk(disk, w)[w.target := w.content], log + IntentRecords([WriteIntent(env, w)]))
  {
  }

  class Audit {
    const env: Env
    const host: Host
    var delegate: SignedAudit?
    var delegateReady: bool

    ghost predicate Valid()
      reads this
    {
      && (delegate != null ==> delegate.host == host && delegate.env == env)
      && (delegateReady <==> delegate != null)
    }

    /** The delegate's cache: empty until the delegate exists. */
    ghost function Cache(): Option<Cached>
      reads this, delegate
    {
      if delegate == null then None else delegate.key
    }

    constructor (env: Env, host: Host)
      ensures Valid() && this.env == env && this.host == host && delegate == null && !delegateReady
    {
      this.env, this.host, delegate, delegateReady := env, host, null, false;
    }

    /** Opens the keychain on first use; a failure to open is not remembered. */
    method SignedDelegate(opens: bool)
      requires Valid()
      modifies this
      ensures Valid()
      ensures delegateReady == (old(delegateReady) || opens)
      ensures if old(delegateReady) || !opens then delegate == old(delegate)
              else delegate != null && fresh(delegate) && delegate.key.None?
    {
      if delegateReady || !opens {
        return;
      }
      delegate := new SignedAudit.Delegate(env, host);
      delegateReady := true;
    }

    /** `opens`: a keychain can be opened now; `readable`: it answers reads. */
    method AppendLocked(x: Intent, opens: bool, readable: bool, now: Time, newKey: string, budget: nat) returns (route: Route)
      requires Valid()
      modifies this, host, delegate
      ensures Valid()
      ensures var before := Local(old(host.Contents()), old(Cache()));
              var reachable := (old(delegateReady) || opens) && (old(Cache()).Some? || readable);
              && AppendRoute(env, before, x, reachable, now, newKey, budget).1 == route
              && AppendRoute(env, before, x, reachable, now, newKey, budget).0.store == host.Contents()
      ensures route == Legacy <==> old(host.log) == [] || old(host.log)[|old(host.log)| - 1].prevHash == ""
      ensures route == Unsigned
         <==> route != Legacy
              && ((!old(delegateReady) && !opens)
                  || (old(Cache()).None? && (!readable || CurrentPair(old(host.Contents()).kc).None?)))
    {
      hide RunTask, UnsignedEntry, LegacyEntry;
      if host.log == [] || host.log[|host.log| - 1].prevHash == "" {
        host.log := host.log + [LegacyEntry(x, now)];
        return Legacy;
      }
      SignedDelegate(opens);
      if delegate != null {
        var k := delegate.HmacKey(readable);
        if k.Some? {
          var ok := delegate.AppendAndRefreshLocked(x, now, newKey, budget);
          return Signed(ok);
        }
      }
      host.log := host.log + [UnsignedEntry(env, host.log, x, now)];
      route := Unsigned;
    }

    /** One plain file write: write entry first, then an unrecorded backup file, then the file. When the entry
        is refused no file is touched. */
    method WriteFileLocked(files: Files, w: FileWrite, opens: bool, readable: bool, now: Time, newKey: string, budget: nat)
      returns (ok: bool)
      requires Valid() && !w.signed
      modifies this, host, delegate, files
      ensures Valid()
      ensures if ok then Site(files.disk, Records(host.log)) == ApplyWrite(env, Site(old(files.disk), Records(old(host.log))), w)
              else files.disk == old(files.disk)
      ensures !ok ==> Records(old(host.log)) <= Records(host.log) <= ApplyWrite(env, Site(old(files.disk), Records(old(host.log))), w).log
    {
      hide AppendRoute, Records, IntentRecords, Sidecar;
      var existed := w.target in files.disk;
      RouteRecords(env, Local(host.Contents(), Cache()), WriteIntent(env, w), (delegateReady || opens) && (Cache().Some? || readable), now, newKey, budget);
      PlainApplyWrite(env, Records(host.log), files.disk, w);
      var route := AppendLocked(WriteIntent(env, w), opens, readable, now, newKey, budget);
      if route == Signed(false) {
        return false;
      }
      if existed {
        files.disk := files.disk[Sidecar(w.target, w.stamp) := files.disk[w.target]];
      }
      files.disk := files.disk[w.target := w.content];
      ok := true;
    }
  }

  /** The last entry alone: unchained, and nothing declared or signed. */
  predicate EndsLegacy(log: seq<Entry>, now: Time) {
    log != [] && var e := log[|log| - 1]; e.time == now && e.prevHash == "" && e.sig == "" && e.keyEpoch == 0
  }

  /** What one plain append leaves behind, without its routes. On a log without a chain it adds a legacy entry. On
      a chained log it adds an unsigned entry if and only if it has no delegate that can produce a key; else it
      adds an entry signed under the tail epoch's key, counted and under an anchor of the whole log, or nothing
      when the writer's epoch is not the tail's. */
  lemma PlainAppendSigns(env: Env, l: Local, x: Intent, reachable: bool, now: Time, newKey: string, budget: nat)
    requires StoreInv(env, l.store) && CacheInv(l.store, l.cache) && IntentOk(x) && budget >= 4
    ensures var s, t := l.store, AppendRoute(env, l, x, reachable, now, newKey, budget).0.store;
            var pair := KeyFor(l);
            var appended := |t.log| == |s.log| + 1 && s.log <= t.log;
            if !ChainActive(s.log) then appended && EndsLegacy(t.log, now) && t.kc == s.kc && t.anchor == s.anchor
            else if !reachable || pair.None? then
              appended && ChainActive(t.log) && t.log[|s.log|].sig == "" && t.log[|s.log|].time == now && t.kc == s.kc && t.anchor == s.anchor
            else if pair.value.epoch == Tail(s.log) then
              appended && SignedFrom(env, t.log, |s.log|, pair.value, now) && AnchorsAll(env, t, now)
              && CounterOf(t.kc) == CounterOf(s.kc) + 1
            else t == s
  {
    hide RunTask, StoreInv, AnchorsAll, SignedFrom, Records, IntentRecords, Chain.TailEpoch, UnsignedEntry;
    if ChainActive(l.store.log) {
      if reachable && KeyFor(l).Some? {
        SignedRoute(env, l, x, now, newKey, budget);
      } else {
        UnsignedEnds(env, l.store.log, x, now);
      }
    }
  }

  lemma UnsignedEnds(env: Env, log: seq<Entry>, x: Intent, now: Time)
    ensures var e := UnsignedEntry(env, log, x, now); IsChained(e) && e.sig == "" && e.time == now
  {
  }

  /** The signed route, when every store write succeeds. */
  lemma SignedRoute(env: Env, l: Local, x: Intent, now: Time, newKey: string, budget: nat)
    requires StoreInv(env, l.store) && CacheInv(l.store, l.cache) && IntentOk(x) && budget >= 4 && KeyFor(l).Some?
    ensures var p := RunTask(env, l.(cache := KeyFor(l)), Appending([x], 0), now, newKey, budget);
            var c := KeyFor(l).value;
            if c.epoch == Tail(l.store.log)
            then p.phase == Returned(true) && Achieved(env, l.store, p.l.store, c, [x], 0, now) && |p.l.store.log| == |l.store.log| + 1
            else p.phase == Returned(false) && p.l.store == l.store
  {
    hide RunTask, StoreInv, Achieved, Chain.TailEpoch, Records, IntentRecords;
    var m := l.(cache := KeyFor(l));
    assert PairOk(l.store, KeyFor(l).value) by {
      StorePointer(env, l.store);
    }
    StoreTailEpoch(env, l.store);
    TailGuardPinsEpoch(env, l.store, KeyFor(l).value);
    if KeyFor(l).value.epoch == Tail(l.store.log) {
      AppendingGoesThrough(env, m, [x], 0, now, newKey, budget);
      AchievedLength(env, l.store, RunTask(env, m, Appending([x], 0), now, newKey, budget).l.store, KeyFor(l).value, [x], now);
    } else {
      RunTaskOnce(env, m, Appending([x], 0), now, newKey, budget);
    }
  }

  lemma AchievedLength(env: Env, s: Store, t: Store, c: Cached, todo: seq<Intent>, now: Time)
    requires Achieved(env, s, t, c, todo, 0, now)
    ensures |t.log| == |s.log| + |todo|
  {
    assert |Records(t.log)| == |Records(s.log)| + |IntentRecords(todo)|;
  }

  /** One plain append on honest stores. The legacy and signed routes are always safe; the unsigned route
      is safe exactly in the first epoch. */
  lemma PlainAppendIsSafe(env: Env, l: Local, x: Intent, reachable: bool, now: Time, newKey: string, budget: nat)
    requires StoreInv(env, l.store) && CacheInv(l.store, l.cache) && CounterInv(l.store, 0) && IntentOk(x)
    requires Readable(env, AppendRoute(env, l, x, reachable, now, newKey, budget).0.store.log)
    ensures var (m, route) := AppendRoute(env, l, x, reachable, now, newKey, budget);
            ChainValid(View(env, m.store), |m.store.log|) <==> (route.Unsigned? ==> TailEpoch(l.store.log) == FIRST_EPOCH)
  {
    hide RunTask, Readable;
    var (m, route) := AppendRoute(env, l, x, reachable, now, newKey, budget);
    match route {
      case Legacy =>
        ReadableAt(env, m.store.log, |l.store.log|);
        LegacyAppendKeeps(env, l.store, x, now);
      case Signed(_) =>
        RunTaskKeeps(env, l.(cache := KeyFor(l)), Appending([x], 0), now, newKey, budget);
      case Unsigned =>
        ReadableAt(env, m.store.log, |l.store.log|);
        UnsignedAppendSafeIffFirstEpoch(env, l.store, x, now);
    }
  }
}
