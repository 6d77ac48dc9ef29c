/** What the verifier says about the stores the writers leave behind: no false alarm in any reachable
    state, and no accusation when keys are lost.
  */
module Guarantees {
  import opened Text
  import opened Framing
  import opened Chain
  import opened Verifier
  import opened Writers
  import opened Invariant
  import opened Machine

  function AnchorFile(s: Store): Read<Anchor> {
    match s.anchor
    case None => Absent
    case Some(a) => Value(a)
  }

  /** `Verify` on a snapshot of the stores. */
  function VerifySnapshot(env: Env, s: Store): Outcome {
    Verify(env, Lines(env, s.log), AnchorFile(s), Ring(s.kc))
  }

  lemma {:induction false} ParseHonest(env: Env, log: seq<Entry>)
    requires Readable(env, log)
    ensures ParseAll(env, Lines(env, log)) == Some(log)
  {
    var lines := Lines(env, log);
    if log != [] {
      var k := |log| - 1;
      assert lines[..k] == Lines(env, log[..k]);
      ParseHonest(env, log[..k]);
      assert ReadsBack(env, log[k]);
      assert log == log[..k] + [log[k]];
    }
  }

  // ---------- no false alarm ----------

  lemma SealedAnchorVerifies(env: Env, s: Store)
    requires StoreInv(env, s) && s.anchor.Some?
    ensures VerifyAnchor(env, Ring(s.kc), s.anchor.value) == Some(true) && GenuineAnchor(env, Ring(s.kc), s.anchor.value)
    ensures CurrentPair(s.kc).Some? || Pointer(s.kc) > FIRST_EPOCH
  {
    hide Chain.ChainValid, Readable, HonestEntries, IssuedInv, KeysInv;
    var a := s.anchor.value;
    HexRoundTrip(env.mac(s.kc.keys[EffectiveEpoch(a.keyEpoch)], AnchorSignBytes(a)));
  }

  lemma CurrentOfStore(env: Env, s: Store)
    requires StoreInv(env, s)
    ensures FetchCurrent(Ring(s.kc)) == Current(Pointer(s.kc), if CurrentPair(s.kc).Some? then Some(CurrentPair(s.kc).value.key) else None)
  {
    if Pointer(s.kc) > FIRST_EPOCH && !ChainActive(s.log) {
      InactiveMeansLegacy(env, s);
    }
  }

  lemma HonestStoreIsSound(env: Env, s: Store)
    requires StoreInv(env, s) && CounterInv(s, 0) && s.anchor.Some?
    ensures Sound(View(env, s), Pointer(s.kc), Value(s.anchor.value))
  {
    hide Chain.ChainValid, Readable, HonestEntries, IssuedInv, KeysInv, GenuineAnchor, AnchorSignBytes, EpochAt;
    SealedAnchorVerifies(env, s);
  }

  lemma KeylessStorePasses(env: Env, s: Store)
    requires StoreInv(env, s) && CounterInv(s, 0) && CurrentPair(s.kc).None?
    ensures Passes(VerifySnapshot(env, s)) && s.anchor.None?
  {
    ParseHonest(env, s.log);
    CurrentOfStore(env, s);
    var c := ScannedBy(env, Lines(env, s.log), Ring(s.kc));
    ChainCarries(View(env, s), c);
    WalkAccepts(c);
    if s.anchor.Some? {
      SealedAnchorVerifies(env, s);
    }
  }

  /** The verifier passes a snapshot of honest stores, mid-section or not, exactly outside the window in
      which a key exists and no anchor has been written yet. */
  lemma SnapshotPasses(env: Env, s: Store)
    requires StoreInv(env, s) && CounterInv(s, 0)
    ensures Passes(VerifySnapshot(env, s)) <==> !(CurrentPair(s.kc).Some? && s.anchor.None?)
  {
    if CurrentPair(s.kc).None? {
      KeylessStorePasses(env, s);
    } else {
      ParseHonest(env, s.log);
      CurrentOfStore(env, s);
      assert ScannedBy(env, Lines(env, s.log), Ring(s.kc)) == View(env, s);
      PassMeansSound(env, Lines(env, s.log), AnchorFile(s), Ring(s.kc).value);
      if s.anchor.Some? {
        HonestStoreIsSound(env, s);
      }
    }
  }

  lemma InvGivesStoreInv(env: Env, s: System)
    requires SystemInv(env, s)
    ensures StoreInv(env, s.store) && CounterInv(s.store, 0)
  {
  }

  /** No false alarm: in every state the writers can reach, whoever crashed wherever, `Verify` passes
      exactly outside the window between the first key and the first anchor, and in that window the
      verdict is the missing anchor. */
  lemma NoFalseAlarm(env: Env, s: System)
    requires Reachable(env, s)
    ensures Passes(VerifySnapshot(env, s.store)) <==> !(CurrentPair(s.store.kc).Some? && s.store.anchor.None?)
    ensures !Passes(VerifySnapshot(env, s.store)) ==> VerifySnapshot(env, s.store) == Done(Bad(-1, AnchorMissing, false))
  {
    ReachableInv(env, s);
    InvGivesStoreInv(env, s);
    SnapshotPasses(env, s.store);
    if CurrentPair(s.store.kc).Some? && s.store.anchor.None? {
      WindowVerdict(env, s.store);
    }
  }

  lemma WindowVerdict(env: Env, s: Store)
    requires StoreInv(env, s) && CurrentPair(s.kc).Some? && s.anchor.None?
    ensures VerifySnapshot(env, s) == Done(Bad(-1, AnchorMissing, false))
  {
    ParseHonest(env, s.log);
    CurrentOfStore(env, s);
    assert ScannedBy(env, Lines(env, s.log), Ring(s.kc)) == View(env, s);
    WalkAccepts(View(env, s));
  }

  lemma FallbackWalk(env: Env, s: Store, t: Store, e: Entry)
    requires StoreInv(env, s) && t == s.(log := s.log + [e])
    requires e.prevHash == PrevHash(env, s.log) && e.prevHash != "" && EffectiveEpoch(e.keyEpoch) != EpochAt(s.log, |s.log|)
    ensures Walk(View(env, t)) == Bad(|s.log|, EpochMismatch, false)
  {
    hide Readable, HonestEntries, PointerInv, KeysInv, AnchorInv, IssuedInv, EntryOk, WalkPrefix, RotationTarget;
    var c, n := View(env, t), |s.log|;
    LinesGrow(env, s.log, e);
    ChainCarries(View(env, s), c);
    EpochAtPrefix(s.log, t.log, n);
    WalkMeaning(c, n);
    WalkPrefixStep(c, n);
    assert WalkStep(c, n, WalkPrefix(c, n)) == Stopped(Bad(n, EpochMismatch, false));
  }

  lemma WalkPrefixStep(c: Scanned, n: nat)
    requires c.Aligned() && n < |c.entries| && WalkPrefix(c, n).Walking?
    ensures WalkPrefix(c, n + 1) == WalkStep(c, n, WalkPrefix(c, n))
  {
  }

  /** After the first rotation the chained-unsigned fallback reads as tampering: on any honest stores past the
      first epoch, one such append makes `Verify` report a broken chain, and `audit verify` exit with 2. */
  lemma FallbackReadsAsTampering(env: Env, s: Store, x: Intent, now: Time)
    requires StoreInv(env, s) && CurrentPair(s.kc).Some? && TailEpoch(s.log) != FIRST_EPOCH
    requires ReadsBack(env, UnsignedEntry(env, s.log, x, now))
    ensures var t := s.(log := s.log + [UnsignedEntry(env, s.log, x, now)]);
            VerifySnapshot(env, t) == Done(Bad(|s.log|, EpochMismatch, false)) && ExitCode(VerifySnapshot(env, t), true) == 2
  {
    hide StoreInv, EntryOk, Walk;
    var e := UnsignedEntry(env, s.log, x, now);
    var t := s.(log := s.log + [e]);
    StoreTailEpoch(env, s);
    FallbackWalk(env, s, t, e);
    StoreReads(env, s);
    ParseHonest(env, t.log);
    CurrentOfStore(env, s);
  }

  lemma StoreReads(env: Env, s: Store)
    requires StoreInv(env, s)
    ensures Readable(env, s.log)
  {
  }

  /** Once an anchor has been written, no later event can make `audit verify` exit with 2. */
  lemma {:induction false} AnchoredRunsNeverExitTwo(env: Env, s: System, evs: seq<Event>, t: System)
    requires SystemInv(env, s) && s.store.anchor.Some? && Run(env, s, evs, t)
    ensures ExitCode(VerifySnapshot(env, t.store), true) != 2
    decreases |evs|
  {
    hide SystemInv, Enabled, InScope, Next;
    if evs == [] {
      InvGivesStoreInv(env, s);
      SnapshotPasses(env, s.store);
    } else {
      RunUnfolds(env, s, evs, t);
      EventKeeps(env, s, evs[0]);
      AnchorStays(s.store, Next(env, s, evs[0]).store);
      AnchoredRunsNeverExitTwo(env, Next(env, s, evs[0]), evs[1..], t);
    }
  }

  lemma RunUnfolds(env: Env, s: System, evs: seq<Event>, t: System)
    requires evs != [] && Run(env, s, evs, t)
    ensures Enabled(s, evs[0]) && InScope(env, s, evs[0]) && Run(env, Next(env, s, evs[0]), evs[1..], t)
  {
  }

  lemma AnchorStays(s: Store, t: Store)
    requires Grows(s, t) && s.anchor.Some?
    ensures t.anchor.Some?
  {
  }

  // ---------- lost keys ----------

  function Without(kc: Keychain, lost: set<nat>): Keychain {
    kc.(keys := kc.keys - lost)
  }

  /** The honest log as a reader sees it whose keychain has lost some keys. */
  function LostView(env: Env, s: Store, lost: set<nat>, hasKeys: bool): (c: Scanned)
    ensures c.Aligned()
  {
    Scanned(env, Ring(Without(s.kc, lost)), Lines(env, s.log), s.log, hasKeys)
  }

  predicate OnlyUnverifiable(r: VerifyResult) {
    !r.ok && r.indeterminate && !r.truncated
  }

  lemma LostKeyRead(s: Store, lost: set<nat>, e: nat)
    ensures FetchKey(Ring(Without(s.kc, lost)), e) == Absent
         || FetchKey(Ring(Without(s.kc, lost)), e) == FetchKey(Ring(s.kc), e)
  {
  }

  lemma LostEntryCheck(env: Env, s: Store, lost: set<nat>, i: nat)
    requires i < |s.log| && EntryOk(View(env, s), i) && IsChained(s.log[i])
    requires EpochAt(s.log, i) <= MAX_UINT32
    ensures var r := CheckEntry(LostView(env, s, lost, true), i, EpochAt(s.log, i));
            r.Some? ==> OnlyUnverifiable(r.value)
  {
    hide InputOf, SignBytesEpoch, HashOf, Link;
    var e := s.log[i];
    LostKeyRead(s, lost, EpochAt(s.log, i));
    LostKeyRead(s, lost, RotationTarget(e.target));
    NextEpochDoesNotWrap(RotationTarget(e.target), EpochAt(s.log, i));
  }

  lemma {:induction false} LostWalk(env: Env, s: Store, lost: set<nat>, n: nat)
    requires ChainValid(View(env, s), |s.log|) && n <= |s.log|
    ensures var st := WalkPrefix(LostView(env, s, lost, true), n);
            st.Stopped? ==> OnlyUnverifiable(st.r)
  {
    hide CheckEntry;
    if n > 0 {
      var d := LostView(env, s, lost, true);
      LostWalk(env, s, lost, n - 1);
      var st := WalkPrefix(d, n - 1);
      if st.Walking? {
        WalkMeaning(d, n - 1);
        assert EntryOk(View(env, s), n - 1);
        if IsChained(s.log[n - 1]) {
          LostEntryCheck(env, s, lost, n - 1);
        }
      }
    }
  }

  lemma MarkerUsesKeys(c: Scanned, i: nat)
    requires c.Aligned() && c.hasKeys && i < |c.entries|
    requires EntryOk(c, i) && HonestEntry(c.entries[i]) && IsMarker(c.entries[i])
    ensures FetchKey(c.ring, EpochAt(c.entries, i)).Value? && FetchKey(c.ring, EpochAt(c.entries, i) + 1).Value?
  {
    hide InputOf, SignBytesEpoch, HashOf, RotationTarget, Link;
  }

  /** A walk that checks signatures and gets through an honest log has used the key of every epoch up to
      its tail: markers are always signed, and each names the next key. */
  lemma {:induction false} WalkUsesEveryKey(c: Scanned, n: nat)
    requires c.Aligned() && c.hasKeys && n <= |c.entries| && ChainValid(c, n) && HonestEntries(c.entries)
    ensures EpochAt(c.entries, n) > 1 ==> forall e: nat | 1 <= e <= EpochAt(c.entries, n) :: FetchKey(c.ring, e).Value?
  {
    hide EntryOk, HonestEntry, FetchKey;
    if n > 0 {
      WalkUsesEveryKey(c, n - 1);
      if IsMarker(c.entries[n - 1]) {
        MarkerUsesKeys(c, n - 1);
      }
    }
  }

  lemma AnchorKeyKept(env: Env, s: Store, lost: set<nat>)
    requires StoreInv(env, s) && s.anchor.Some?
    requires ChainValid(LostView(env, s, lost, true), |s.log|)
    requires CurrentPair(Without(s.kc, lost)).Some?
    ensures VerifyAnchor(env, Ring(Without(s.kc, lost)), s.anchor.value) == Some(true)
  {
    var d := LostView(env, s, lost, true);
    var e := EffectiveEpoch(s.anchor.value.keyEpoch);
    WalkUsesEveryKey(d, |s.log|);
    SealedAnchorVerifies(env, s);
    LostKeyRead(s, lost, e);
    assert FetchKey(d.ring, e).Value?;
  }

  lemma LostCurrent(env: Env, s: Store, lost: set<nat>)
    requires StoreInv(env, s)
    ensures var cur := FetchCurrent(Ring(Without(s.kc, lost)));
            || cur.Lost?
            || cur == Current(Pointer(s.kc), if CurrentPair(Without(s.kc, lost)).Some?
                                             then Some(CurrentPair(Without(s.kc, lost)).value.key) else None)
  {
  }

  lemma LostWalkVerdict(env: Env, s: Store, lost: set<nat>, hasKeys: bool)
    requires StoreInv(env, s)
    ensures var r := Walk(LostView(env, s, lost, hasKeys));
            if r.ok then ChainValid(LostView(env, s, lost, hasKeys), |s.log|) && r.lastEpoch == Tail(s.log) && !r.truncated
            else OnlyUnverifiable(r)
  {
    hide Readable, HonestEntries, AnchorInv, IssuedInv, PointerInv, KeysInv;
    var d := LostView(env, s, lost, hasKeys);
    WalkMeaning(d, |s.log|);
    if hasKeys {
      LostWalk(env, s, lost, |s.log|);
    } else {
      ChainCarries(View(env, s), d);
    }
  }

  lemma AnchorPrefixOf(env: Env, s: Store)
    requires AnchorInv(env, s) && s.anchor.Some?
    ensures AnchorsPrefix(env, s.log, s.anchor.value)
  {
  }

  lemma LostAfterWalk(env: Env, s: Store, lost: set<nat>, key: Option<string>, r: VerifyResult)
    requires s.anchor.Some? && AnchorsPrefix(env, s.log, s.anchor.value) && CounterInv(s, 0) && Pointer(s.kc) <= Tail(s.log)
    requires key.Some? ==> VerifyAnchor(env, Ring(Without(s.kc, lost)), s.anchor.value) == Some(true)
    requires r.ok && !r.truncated && r.lastEpoch == Tail(s.log)
    ensures Passes(AfterWalk(LostView(env, s, lost, key.Some?), AnchorFile(s), Current(Pointer(s.kc), key), r))
  {
    hide VerifyAnchor, ExcessHasUnsigned;
  }

  /** Losing keys never reads as tampering: whatever set of epoch keys vanishes after the first anchor,
      the verdict on the honest stores is a pass or an unverifiable range, never an error. */
  lemma LostKeysNeverAccuse(env: Env, s: Store, lost: set<nat>)
    requires StoreInv(env, s) && CounterInv(s, 0) && s.anchor.Some?
    ensures var v := Verify(env, Lines(env, s.log), AnchorFile(s), Ring(Without(s.kc, lost)));
            Passes(v) || Unverifiable(v)
  {
    hide Readable, HonestEntries, IssuedInv, Walk, Chain.ChainValid, KeysInv, AnchorInv, VerifyAnchor, CheckAnchor;
    ParseHonest(env, s.log);
    LostCurrent(env, s, lost);
    var cur := FetchCurrent(Ring(Without(s.kc, lost)));
    if cur.Current? {
      var r := Walk(LostView(env, s, lost, cur.key.Some?));
      LostWalkVerdict(env, s, lost, cur.key.Some?);
      if r.ok {
        if cur.key.Some? {
          AnchorKeyKept(env, s, lost);
        }
        AnchorPrefixOf(env, s);
        LostAfterWalk(env, s, lost, cur.key, r);
      }
    }
  }

  lemma LostKeysNeverAccuseReachable(env: Env, s: System, lost: set<nat>)
    requires Reachable(env, s) && s.store.anchor.Some?
    ensures var v := Verify(env, Lines(env, s.store.log), AnchorFile(s.store), Ring(Without(s.store.kc, lost)));
            ExitCode(v, true) != 2 && v.Done?
  {
    ReachableInv(env, s);
    InvGivesStoreInv(env, s);
    LostKeysNeverAccuse(env, s.store, lost);
  }
}
