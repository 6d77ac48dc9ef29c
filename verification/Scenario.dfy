/** The first signed append on a fresh host, end to end: what the theorems assume is met by it. */
module Scenario {
  import opened Text
  import opened Framing
  import opened Chain
  import opened Verifier
  import opened Writers
  import opened Invariant
  import opened Machine
  import opened Guarantees
  import opened TamperEvidence
  import opened Rotation

  /** The entry that a first append of `x` leaves in the log. */
  function FirstEntry(env: Env, x: Intent, now: Time, key: string): Entry {
    SignedEntry(env, [], Cached(key, FIRST_EPOCH), x, now)
  }

  function AfterAppend(env: Env, x: Intent, now: Time, key: string): Store {
    AppendSigned(env, PutKey(EMPTY_STORE, FIRST_EPOCH, key), Cached(key, FIRST_EPOCH), x, now)
  }

  function AfterAnchor(env: Env, x: Intent, now: Time, key: string): Store {
    PutAnchor(env, AfterAppend(env, x, now, key), Cached(key, FIRST_EPOCH), now)
  }

  /** The stores once the section has run to its end. */
  function FirstStore(env: Env, x: Intent, now: Time, key: string): Store {
    AddCounter(AfterAnchor(env, x, now, key), 1)
  }

  function Holding(s: Store, c: map<WriterId, Cached>, task: Task): System {
    System(s, c, Some(Holder(0, task)))
  }

  ghost predicate Leads(env: Env, s: System, ev: Event, t: System) {
    Enabled(s, ev) && InScope(env, s, ev) && Next(env, s, ev) == t
  }

  function Held(key: string): map<WriterId, Cached> {
    map[0 := Cached(key, FIRST_EPOCH)]
  }

  lemma KeyFirst(env: Env, x: Intent, now: Time, key: string)
    requires IntentOk(x)
    ensures Leads(env, EMPTY, Begin(0, Secure([x], true)), Holding(EMPTY_STORE, map[], Secure([x], true)))
    ensures Leads(env, Holding(EMPTY_STORE, map[], Secure([x], true)), Step(now, key),
                  Holding(PutKey(EMPTY_STORE, FIRST_EPOCH, key), Held(key), Appending([x], 0)))
  {
  }

  lemma ThenEntry(env: Env, x: Intent, now: Time, key: string)
    requires ReadsBack(env, FirstEntry(env, x, now, key))
    ensures Leads(env, Holding(PutKey(EMPTY_STORE, FIRST_EPOCH, key), Held(key), Appending([x], 0)), Step(now, key),
                  Holding(AfterAppend(env, x, now, key), Held(key), Appending([], 1)))
  {
    hide SignedEntry;
    assert [x][1..] == [];
  }

  /** The rest of the section leaves log and keys alone. */
  lemma ThenRefresh(env: Env, s: Store, c: Cached, now: Time, newKey: string)
    requires Readable(env, s.log)
    ensures var step, caches := Step(now, newKey), map[0 := c];
            && Leads(env, Holding(s, caches, Appending([], 1)), step, Holding(s, caches, Anchoring(1)))
            && Leads(env, Holding(s, caches, Anchoring(1)), step, Holding(PutAnchor(env, s, c, now), caches, Counting(1)))
            && Leads(env, Holding(s, caches, Counting(1)), step, System(AddCounter(s, 1), caches, None))
  {
    hide Readable, UnsealedAnchor, TryAppend, StartRotation, SecureKey;
    assert PutAnchor(env, s, c, now).log == s.log;
    assert AddCounter(s, 1).log == s.log;
  }

  ghost predicate LeadsAll(env: Env, states: seq<System>, evs: seq<Event>)
    requires |states| == |evs| + 1
  {
    forall k | 0 <= k < |evs| :: Leads(env, states[k], evs[k], states[k + 1])
  }

  lemma {:induction false} LeadsRun(env: Env, states: seq<System>, evs: seq<Event>)
    requires |states| == |evs| + 1 && LeadsAll(env, states, evs)
    ensures Run(env, states[0], evs, states[|evs|])
    decreases |evs|
  {
    if evs != [] {
      forall k | 0 <= k < |evs| - 1 ensures Leads(env, states[1..][k], evs[1..][k], states[1..][k + 1]) {
        assert Leads(env, states[k + 1], evs[k + 1], states[k + 1 + 1]);
      }
      LeadsRun(env, states[1..], evs[1..]);
      hide InScope, Next;
      assert Leads(env, states[0], evs[0], states[1]);
    }
  }

  lemma FirstRun(env: Env, x: Intent, now: Time, key: string) returns (t: System)
    requires IntentOk(x) && ReadsBack(env, FirstEntry(env, x, now, key))
    ensures Reachable(env, t) && t.lock == None && t.store == FirstStore(env, x, now, key)
  {
    hide Leads, PutAnchor, AppendSigned, PutKey, AddCounter, ReadsBack, Run;
    KeyFirst(env, x, now, key);
    ThenEntry(env, x, now, key);
    FirstLines(env, x, now, key);
    ThenRefresh(env, AfterAppend(env, x, now, key), Cached(key, FIRST_EPOCH), now, key);
    ThenRefresh(env, AfterAnchor(env, x, now, key), Cached(key, FIRST_EPOCH), now, key);
    var begin, step := Begin(0, Secure([x], true)), Step(now, key);
    t := System(FirstStore(env, x, now, key), Held(key), None);
    var states := [EMPTY,
                   Holding(EMPTY_STORE, map[], Secure([x], true)),
                   Holding(PutKey(EMPTY_STORE, FIRST_EPOCH, key), Held(key), Appending([x], 0)),
                   Holding(AfterAppend(env, x, now, key), Held(key), Appending([], 1)),
                   Holding(AfterAppend(env, x, now, key), Held(key), Anchoring(1)),
                   Holding(AfterAnchor(env, x, now, key), Held(key), Counting(1)),
                   t];
    LeadsRun(env, states, [begin, step, step, step, step, step]);
  }

  lemma FirstLines(env: Env, x: Intent, now: Time, key: string)
    requires IntentOk(x) && ReadsBack(env, FirstEntry(env, x, now, key))
    ensures var s := FirstStore(env, x, now, key);
            && s.log == [FirstEntry(env, x, now, key)] && CounterOf(s.kc) == 1 && s.anchor.Some?
            && s.kc.keys == map[1 := key] && CurrentPair(s.kc) == Some(Cached(key, FIRST_EPOCH))
            && LegacyHead(s.log) == 0
            && AnchorUnforged(env, s, s.anchor.value)
            && s.log == AfterAnchor(env, x, now, key).log == AfterAppend(env, x, now, key).log
  {
  }

  lemma FirstUnforged(env: Env, s: Store, e: Entry, key: string)
    requires s.kc.keys == map[1 := key] && InputOf(env, e).Some?
    requires (key, SignBytesEpoch(InputOf(env, e).value, FIRST_EPOCH)) in s.issued
    ensures EntriesUnforged(env, s, [e])
  {
    hide SignBytesEpoch, InputOf;
  }

  lemma FirstIssued(env: Env, x: Intent, now: Time, key: string)
    ensures InputOf(env, FirstEntry(env, x, now, key)) == Some(SignedInput(env, [], x, now))
    ensures (key, SignBytesEpoch(SignedInput(env, [], x, now), FIRST_EPOCH)) in FirstStore(env, x, now, key).issued
    ensures FirstEntry(env, x, now, key).op == x.op
  {
    hide SignBytesEpoch, InputOf, UnsealedAnchor;
    SignedEntryChecks(env, EMPTY_STORE, Cached(key, FIRST_EPOCH), x, now);
  }

  lemma FirstPresented(env: Env, x: Intent, now: Time, key: string)
    requires IntentOk(x) && ReadsBack(env, FirstEntry(env, x, now, key))
    ensures var s := FirstStore(env, x, now, key); Presented(env, s, Lines(env, s.log), s.log)
  {
    hide FirstStore, FirstEntry, SignBytesEpoch, InputOf, EntriesUnforged, ReadsBack;
    var s, e := FirstStore(env, x, now, key), FirstEntry(env, x, now, key);
    FirstLines(env, x, now, key);
    FirstIssued(env, x, now, key);
    FirstUnforged(env, s, e, key);
    ParseHonest(env, s.log);
  }

  /** A first append reaches a quiet state with one counted, anchored entry that `Verify` passes; and the
      honest log and anchor themselves meet every assumption of the soundness theorem. */
  lemma FirstAppend(env: Env, x: Intent, now: Time, key: string) returns (t: System)
    requires IntentOk(x) && ReadsBack(env, FirstEntry(env, x, now, key))
    ensures Reachable(env, t) && t.lock == None
    ensures t.store.log == [FirstEntry(env, x, now, key)] && CounterOf(t.store.kc) == 1 && t.store.anchor.Some?
    ensures CurrentPair(t.store.kc) == Some(Cached(key, FIRST_EPOCH)) && LegacyHead(t.store.log) == 0
    ensures Presented(env, t.store, Lines(env, t.store.log), t.store.log) && AnchorUnforged(env, t.store, t.store.anchor.value)
    ensures Passes(Verify(env, Lines(env, t.store.log), Value(t.store.anchor.value), Ring(t.store.kc)))
  {
    hide FirstStore, FirstEntry, Presented, AnchorUnforged, Verify, CurrentPair, LegacyHead, Reachable, ReadsBack;
    t := FirstRun(env, x, now, key);
    FirstLines(env, x, now, key);
    FirstPresented(env, x, now, key);
    NoFalseAlarm(env, t);
  }

  /** The window between the first key and the first anchor is reached by one crash: `Verify` then rejects stores
      nobody tampered with, and `audit verify` exits with 2. */
  lemma CrashBeforeFirstAnchor(env: Env, x: Intent, now: Time, key: string) returns (t: System)
    requires IntentOk(x)
    ensures Reachable(env, t) && t.lock == None && t.store.log == []
    ensures VerifySnapshot(env, t.store) == Done(Bad(-1, AnchorMissing, false)) && ExitCode(VerifySnapshot(env, t.store), true) == 2
  {
    var s1 := Holding(EMPTY_STORE, map[], Secure([x], true));
    var s2 := Holding(PutKey(EMPTY_STORE, FIRST_EPOCH, key), Held(key), Appending([x], 0));
    t := System(PutKey(EMPTY_STORE, FIRST_EPOCH, key), map[], None);
    KeyFirst(env, x, now, key);
    assert Leads(env, s2, Crash(0), t);
    var states := [EMPTY, s1, s2, t];
    hide Leads, Verify;
    LeadsRun(env, states, [Begin(0, Secure([x], true)), Step(now, key), Crash(0)]);
    NoFalseAlarm(env, t);
  }

  /** The stores after a first append and one rotation. */
  function Rotated(env: Env, x: Intent, now: Time, key: string, newKey: string): Store {
    RotateFrom(env, FirstStore(env, x, now, key), now, newKey).l.store
  }

  lemma RotatedOnce(env: Env, x: Intent, now: Time, key: string, newKey: string)
    requires IntentOk(x) && ReadsBack(env, FirstEntry(env, x, now, key))
    requires ReadsBack(env, FreshMarker(env, FirstStore(env, x, now, key), now, newKey))
    ensures var r := Rotated(env, x, now, key, newKey);
            StoreInv(env, r) && CurrentPair(r.kc).Some? && Tail(r.log) == 2 && Passes(VerifySnapshot(env, r))
  {
    hide FirstStore, FirstEntry, RotateFrom, VerifySnapshot, Passes, StoreInv, ReadsBack, FreshMarker, Grows, AppendSigned;
    var t := FirstRun(env, x, now, key);
    FirstLines(env, x, now, key);
    ReachableInv(env, t);
    InvGivesStoreInv(env, t);
    FirstPointer(env, x, now, key);
    RotationRecovers(env, t.store, now, newKey);
    LogEndsChained(env, Rotated(env, x, now, key, newKey));
  }

  /** One append, one rotation, and one plain append that cannot reach the keychain: the untampered log reads as
      broken. */
  lemma FallbackAfterRotation(env: Env, x: Intent, y: Intent, now: Time, key: string, newKey: string)
    requires IntentOk(x) && ReadsBack(env, FirstEntry(env, x, now, key))
    requires ReadsBack(env, FreshMarker(env, FirstStore(env, x, now, key), now, newKey))
    requires ReadsBack(env, UnsignedEntry(env, Rotated(env, x, now, key, newKey).log, y, now))
    ensures var r := Rotated(env, x, now, key, newKey);
            && Passes(VerifySnapshot(env, r)) && ChainActive(r.log) && TailEpoch(r.log) == 2
            && ExitCode(VerifySnapshot(env, r.(log := r.log + [UnsignedEntry(env, r.log, y, now)])), true) == 2
  {
    hide Rotated, FirstStore, FirstEntry, VerifySnapshot, Passes, StoreInv, ReadsBack, FreshMarker, UnsignedEntry, ChainActive;
    hide Chain.TailEpoch, ExitCode, CurrentPair;
    var r := Rotated(env, x, now, key, newKey);
    RotatedOnce(env, x, now, key, newKey);
    StoreTailEpoch(env, r);
    LogEndsChained(env, r);
    FallbackReadsAsTampering(env, r, y, now);
  }

  lemma FirstPointer(env: Env, x: Intent, now: Time, key: string)
    ensures Pointer(FirstStore(env, x, now, key).kc) == FIRST_EPOCH
  {
  }

  lemma LogEndsChained(env: Env, s: Store)
    requires StoreInv(env, s) && Tail(s.log) > FIRST_EPOCH
    ensures ChainActive(s.log) && (Pointer(s.kc) == Tail(s.log) ==> CurrentPair(s.kc).Some?)
  {
    if !ChainActive(s.log) {
      InactiveMeansLegacy(env, s);
    }
  }
}
