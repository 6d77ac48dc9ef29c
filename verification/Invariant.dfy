/** What is true of the stores between any two store writes, and that every single store write keeps it. */
module Invariant {
  import opened Text
  import opened Framing
  import opened Chain
  import opened Writers

  // ---------- the store invariant ----------

  function Ring(kc: Keychain): Option<Keyring> {
    Some(Keyring(kc, {}))
  }

  function View(env: Env, s: Store): (c: Scanned)
    ensures c.Aligned()
  {
    Scanned(env, Ring(s.kc), Lines(env, s.log), s.log, true)
  }

  /** The marshalled line fits the scanner and parses back to the entry: true of any entry whose text
      fields are valid UTF-8 and short. */
  predicate ReadsBack(env: Env, e: Entry) {
    |env.marshal(e)| < LINE_LIMIT && env.parse(env.marshal(e)) == Some(e)
  }

  predicate Readable(env: Env, log: seq<Entry>) {
    forall i | 0 <= i < |log| :: ReadsBack(env, log[i])
  }

  /** Legacy entries declare nothing, markers are always signed, and operation names are short. */
  predicate HonestEntry(e: Entry) {
    && |e.op| < TITLE_LIMIT
    && (!IsChained(e) ==> e.op != OP_ROTATE && e.keyEpoch == 0)
    && (IsMarker(e) ==> e.sig != "")
  }

  predicate HonestEntries(log: seq<Entry>) {
    forall i | 0 <= i < |log| :: HonestEntry(log[i])
  }

  /** The epoch in force after the last entry, by position. */
  function Tail(log: seq<Entry>): nat {
    EpochAt(log, |log|)
  }

  /** The pointer is at the tail, or one short of it with the tail's own marker as the last line. */
  predicate PointerInv(s: Store) {
    && (s.kc.pointer.Some? ==> s.kc.pointer.value >= FIRST_EPOCH)
    && Pointer(s.kc) <= Tail(s.log) <= Pointer(s.kc) + 1
    && (Tail(s.log) == Pointer(s.kc) + 1 ==> s.log != [] && IsMarker(s.log[|s.log| - 1]))
  }

  predicate KeysInv(s: Store) {
    ChainActive(s.log) ==> forall e | 1 <= e <= Tail(s.log) :: e in s.kc.keys
  }

  /** The anchor describes a prefix of this log. */
  predicate AnchorsPrefix(env: Env, log: seq<Entry>, a: Anchor) {
    && 0 <= a.entryCount <= |log|
    && a.lastHash == if a.entryCount == 0 then "" else HashOf(env, env.marshal(log[a.entryCount - 1]))
  }

  predicate AnchorInv(env: Env, s: Store) {
    s.anchor.Some? ==>
      var a := s.anchor.value;
      var e := EffectiveEpoch(a.keyEpoch);
      && AnchorsPrefix(env, s.log, a)
      && e <= Pointer(s.kc)
      && e in s.kc.keys
      && a.hmac == HexEncode(env.mac(s.kc.keys[e], AnchorSignBytes(a)))
      && (s.kc.keys[e], AnchorSignBytes(a)) in s.issued
  }

  /** `p` is the signature of this very entry. */
  predicate SignsEntry(env: Env, e: Entry, p: (string, string)) {
    && e.sig != ""
    && InputOf(env, e).Some?
    && p.1 == SignBytesEpoch(InputOf(env, e).value, EffectiveEpoch(e.keyEpoch))
  }

  predicate SignsAnchor(env: Env, log: seq<Entry>, a: Anchor, p: (string, string)) {
    AnchorsPrefix(env, log, a) && p.1 == AnchorSignBytes(a)
  }

  predicate SignsCapability(c: Capability, p: (string, string)) {
    ShortCapability(c) && p.1 == CapabilityBytes(c)
  }

  /** Every signature ever issued signs an entry of the log, an anchor of one of its prefixes, or a
      capability URL. */
  ghost predicate IssuedInv(env: Env, s: Store) {
    forall p | p in s.issued :: IssuedFor(env, s.log, p)
  }

  ghost predicate IssuedFor(env: Env, log: seq<Entry>, p: (string, string)) {
    || (exists i | 0 <= i < |log| :: SignsEntry(env, log[i], p))
    || (exists a: Anchor :: SignsAnchor(env, log, a, p))
    || (exists c: Capability :: SignsCapability(c, p))
  }

  ghost predicate StoreInv(env: Env, s: Store) {
    && ChainValid(View(env, s), |s.log|)
    && Readable(env, s.log)
    && HonestEntries(s.log)
    && PointerInv(s)
    && KeysInv(s)
    && AnchorInv(env, s)
    && IssuedInv(env, s)
  }

  // ---------- the chain under a longer log or other keys ----------

  lemma {:induction false} EpochAtPrefix(es: seq<Entry>, fs: seq<Entry>, i: nat)
    requires es <= fs && i <= |es|
    ensures EpochAt(es, i) == EpochAt(fs, i)
  {
    if i > 0 {
      EpochAtPrefix(es, fs, i - 1);
    }
  }

  lemma {:induction false} EpochMonotone(es: seq<Entry>, i: nat, j: nat)
    requires i <= j <= |es|
    ensures EpochAt(es, i) <= EpochAt(es, j)
    decreases j
  {
    if i < j {
      EpochMonotone(es, i, j - 1);
    }
  }

  predicate SameKnownKeys(c: Scanned, d: Scanned) {
    forall e: nat | 1 <= e <= Tail(c.entries) && FetchKey(c.ring, e).Value? :: FetchKey(d.ring, e) == FetchKey(c.ring, e)
  }

  /** A valid chain stays valid as the head of a longer log, when no key it uses changes, or when its
      signatures are no longer checked. */
  lemma ChainCarries(c: Scanned, d: Scanned)
    requires c.Aligned() && d.Aligned() && c.env == d.env
    requires c.lines <= d.lines && c.entries <= d.entries
    requires d.hasKeys ==> c.hasKeys && SameKnownKeys(c, d)
    requires ChainValid(c, |c.entries|)
    ensures ChainValid(d, |c.entries|)
  {
    forall i | 0 <= i < |c.entries| ensures EntryOk(d, i) {
      EntryCarries(c, d, i);
    }
  }

  lemma EntryCarries(c: Scanned, d: Scanned, i: nat)
    requires c.Aligned() && d.Aligned() && c.env == d.env
    requires c.lines <= d.lines && c.entries <= d.entries
    requires d.hasKeys ==> c.hasKeys && SameKnownKeys(c, d)
    requires i < |c.entries| && EntryOk(c, i)
    ensures EntryOk(d, i)
  {
    assert c.entries[i] == d.entries[i];
    EpochAtPrefix(c.entries, d.entries, i);
    EpochMonotone(c.entries, i, |c.entries|);
    EpochMonotone(c.entries, i + 1, |c.entries|);
    assert Link(c.env, c.lines, i) == Link(d.env, d.lines, i);
    forall j | 0 <= j < i ensures c.entries[j] == d.entries[j] {
    }
  }

  /** Once a chain is active it has been so since its first chained entry; before, no marker has passed. */
  lemma {:induction false} UnchainedEpoch(es: seq<Entry>, n: nat)
    requires n <= |es| && forall i | 0 <= i < n :: !IsChained(es[i])
    ensures EpochAt(es, n) == 1
  {
    if n > 0 {
      UnchainedEpoch(es, n - 1);
    }
  }

  lemma InactiveMeansLegacy(env: Env, s: Store)
    requires ChainValid(View(env, s), |s.log|) && !ChainActive(s.log)
    ensures forall i | 0 <= i < |s.log| :: !IsChained(s.log[i])
    ensures Tail(s.log) == 1
  {
    if s.log != [] {
      assert EntryOk(View(env, s), |s.log| - 1);
    }
    UnchainedEpoch(s.log, |s.log|);
  }

  /** The writers' last-line rule is the verifier's epoch on every honest log. */
  lemma TailEpochByPosition(env: Env, s: Store)
    requires ChainValid(View(env, s), |s.log|) && HonestEntries(s.log)
    ensures TailEpoch(s.log) == Tail(s.log)
  {
    if ChainActive(s.log) {
      TailEpochIsWalkEpoch(View(env, s));
    } else {
      InactiveMeansLegacy(env, s);
      if s.log != [] {
        assert HonestEntry(s.log[|s.log| - 1]);
      }
    }
  }

  // ---------- appending ----------

  lemma LinesGrow(env: Env, log: seq<Entry>, e: Entry)
    ensures Lines(env, log) <= Lines(env, log + [e])
    ensures Link(env, Lines(env, log + [e]), |log|) == PrevHash(env, log)
  {
    assert forall i | 0 <= i < |log| :: (log + [e])[i] == log[i];
  }

  lemma IssuedGrows(env: Env, s: Store, t: Store, e: Entry)
    requires t.log == s.log + [e] && IssuedInv(env, s)
    requires forall p | p in t.issued :: p in s.issued || SignsEntry(env, e, p)
    ensures IssuedInv(env, t)
  {
    forall p | p in t.issued ensures IssuedFor(env, t.log, p) {
      if p in s.issued {
        assert IssuedFor(env, s.log, p);
        if i :| 0 <= i < |s.log| && SignsEntry(env, s.log[i], p) {
          assert t.log[i] == s.log[i];
        } else if a: Anchor :| SignsAnchor(env, s.log, a, p) {
          assert SignsAnchor(env, t.log, a, p);
        }
      } else {
        assert t.log[|s.log|] == e;
      }
    }
  }

  lemma AnchorSurvivesAppend(env: Env, s: Store, t: Store, e: Entry)
    requires AnchorInv(env, s) && t.log == s.log + [e] && t.kc == s.kc && t.anchor == s.anchor && s.issued <= t.issued
    ensures AnchorInv(env, t)
  {
    if s.anchor.Some? && s.anchor.value.entryCount > 0 {
      assert t.log[s.anchor.value.entryCount - 1] == s.log[s.anchor.value.entryCount - 1];
    }
  }

  lemma ChainExtends(env: Env, s: Store, t: Store, e: Entry)
    requires ChainValid(View(env, s), |s.log|) && t.log == s.log + [e] && t.kc == s.kc
    requires EntryOk(View(env, t), |s.log|)
    ensures ChainValid(View(env, t), |t.log|)
    ensures Tail(t.log) == Tail(s.log) + if IsMarker(e) then 1 else 0
  {
    LinesGrow(env, s.log, e);
    ChainCarries(View(env, s), View(env, t));
    EpochAtPrefix(s.log, t.log, |s.log|);
  }

  predicate EpochsAllow(s: Store, e: Entry) {
    && (IsMarker(e) ==> Tail(s.log) == Pointer(s.kc) && Tail(s.log) + 1 in s.kc.keys)
    && (!IsMarker(e) ==> Tail(s.log) == Pointer(s.kc) || Tail(s.log) == 1)
    && (IsChained(e) ==> forall k | 1 <= k <= Tail(s.log) :: k in s.kc.keys)
  }

  lemma EpochsSurviveAppend(s: Store, t: Store, e: Entry)
    requires PointerInv(s) && KeysInv(s) && EpochsAllow(s, e)
    requires ChainActive(s.log) ==> IsChained(e)
    requires t.log == s.log + [e] && t.kc == s.kc
    requires Tail(t.log) == Tail(s.log) + if IsMarker(e) then 1 else 0
    ensures PointerInv(t) && KeysInv(t)
  {
  }

  /** Any entry that is in order at the end of the log, declares its epoch and is covered by the
      keychain extends the store invariant. */
  lemma AppendKeeps(env: Env, s: Store, t: Store, e: Entry)
    requires StoreInv(env, s)
    requires t.log == s.log + [e] && t.kc == s.kc && t.anchor == s.anchor && s.issued <= t.issued
    requires EntryOk(View(env, t), |s.log|) && ReadsBack(env, e) && HonestEntry(e)
    requires EpochsAllow(s, e) && (ChainActive(s.log) ==> IsChained(e))
    requires forall p | p in t.issued :: p in s.issued || SignsEntry(env, e, p)
    ensures StoreInv(env, t)
    ensures Tail(t.log) == Tail(s.log) + if IsMarker(e) then 1 else 0
  {
    hide EntryOk, ReadsBack, HashOf, SignsEntry, Link, EpochAt, IssuedFor;
    ChainExtends(env, s, t, e);
    EpochsSurviveAppend(s, t, e);
    AnchorSurvivesAppend(env, s, t, e);
    IssuedGrows(env, s, t, e);
  }

  /** The pair a writer may hold: a key of the keychain at an epoch the pointer has reached. */
  predicate PairOk(s: Store, c: Cached) {
    FIRST_EPOCH <= c.epoch <= Pointer(s.kc) && c.epoch in s.kc.keys && s.kc.keys[c.epoch] == c.key
  }

  /** What a caller may ask for. The rotation marker's own name is reserved. */
  predicate IntentOk(x: Intent) {
    x.op != OP_ROTATE && |x.op| < TITLE_LIMIT
  }

  predicate MarkerOk(env: Env, s: Store, x: Intent) {
    && Pointer(s.kc) + 1 <= MAX_UINT32
    && Pointer(s.kc) + 1 in s.kc.keys
    && x == MarkerIntent(env, s.kc.keys[Pointer(s.kc) + 1], Pointer(s.kc) + 1)
  }

  lemma SignedEntryChecks(env: Env, s: Store, c: Cached, x: Intent, now: Time)
    requires FIRST_EPOCH <= c.epoch
    ensures var e := SignedEntry(env, s.log, c, x, now);
            && InputOf(env, e) == Some(SignedInput(env, s.log, x, now))
            && EffectiveEpoch(e.keyEpoch) == c.epoch
            && SigValid(env, c.key, e, c.epoch) && GenuineSig(env, c.key, e, c.epoch)
            && e.sig != "" && IsChained(e)
  {
    HexRoundTrip(x.digest);
    HexRoundTrip(env.mac(c.key, SignBytesEpoch(SignedInput(env, s.log, x, now), c.epoch)));
  }

  lemma SignedEntryInOrder(env: Env, s: Store, c: Cached, x: Intent, now: Time)
    requires ChainValid(View(env, s), |s.log|) && PairOk(s, c) && c.epoch == Tail(s.log) == Pointer(s.kc)
    requires IntentOk(x) || MarkerOk(env, s, x)
    ensures EntryOk(View(env, AppendSigned(env, s, c, x, now)), |s.log|)
  {
    hide Chain.SigValid, Chain.GenuineSig, Framing.SignBytesEpoch, Chain.ChainValid, Chain.MarkerTarget, Chain.RotationTarget;
    var t := AppendSigned(env, s, c, x, now);
    var e := SignedEntry(env, s.log, c, x, now);
    SignedEntryChecks(env, s, c, x, now);
    LinesGrow(env, s.log, e);
    EpochAtPrefix(s.log, t.log, |s.log|);
    assert FetchKey(Ring(t.kc), c.epoch) == Value(c.key);
    if x.op == OP_ROTATE {
      MarkerTargetRoundTrip(Pointer(s.kc) + 1);
      assert FetchKey(Ring(t.kc), Pointer(s.kc) + 1) == Value(s.kc.keys[Pointer(s.kc) + 1]);
    }
  }

  /** A writer whose true pair passes the tail guard holds exactly the tail epoch, and that is the
      pointer's: no rotation is half done. */
  lemma TailGuardPinsEpoch(env: Env, s: Store, c: Cached)
    requires StoreInv(env, s) && PairOk(s, c)
    ensures TailEpoch(s.log) <= c.epoch <==> c.epoch == Tail(s.log)
    ensures TailEpoch(s.log) <= c.epoch ==> Tail(s.log) == Pointer(s.kc)
  {
    TailEpochByPosition(env, s);
  }

  /** The pointer's key covers the whole log, active chain or not. */
  lemma KeysCoverLog(env: Env, s: Store, c: Cached)
    requires StoreInv(env, s) && PairOk(s, c) && c.epoch == Tail(s.log)
    ensures forall k | 1 <= k <= Tail(s.log) :: k in s.kc.keys
  {
    if !ChainActive(s.log) {
      InactiveMeansLegacy(env, s);
    }
  }

  lemma SignedEpochsAllow(s: Store, e: Entry)
    requires e.sig != "" && IsChained(e) && |e.op| < TITLE_LIMIT
    requires Tail(s.log) == Pointer(s.kc)
    requires e.op == OP_ROTATE ==> Tail(s.log) + 1 in s.kc.keys
    requires forall k | 1 <= k <= Tail(s.log) :: k in s.kc.keys
    ensures EpochsAllow(s, e) && HonestEntry(e)
  {
  }

  /** A signed append that passes the tail guard signs under exactly the tail epoch, which is then the
      pointer's, and keeps the store invariant. */
  lemma SignedAppendKeeps(env: Env, s: Store, c: Cached, x: Intent, now: Time)
    requires StoreInv(env, s) && PairOk(s, c) && TailEpoch(s.log) <= c.epoch
    requires IntentOk(x) || MarkerOk(env, s, x)
    requires ReadsBack(env, SignedEntry(env, s.log, c, x, now))
    ensures c.epoch == Tail(s.log) == Pointer(s.kc)
    ensures StoreInv(env, AppendSigned(env, s, c, x, now))
    ensures Tail(AppendSigned(env, s, c, x, now).log) == Tail(s.log) + if x.op == OP_ROTATE then 1 else 0
  {
    hide Chain.SigValid, Chain.GenuineSig, Framing.SignBytesEpoch, Writers.SignedInput, Chain.EntryOk, Chain.ChainValid;
    hide AnchorInv, IssuedInv, Chain.InputOf, SignsEntry, Readable, HonestEntries;
    TailGuardPinsEpoch(env, s, c);
    KeysCoverLog(env, s, c);
    SignedEntryInOrder(env, s, c, x, now);
    SignedEntryChecks(env, s, c, x, now);
    SignedEpochsAllow(s, SignedEntry(env, s.log, c, x, now));
    SignedIssue(env, s, c, x, now);
    AppendKeeps(env, s, AppendSigned(env, s, c, x, now), SignedEntry(env, s.log, c, x, now));
  }

  lemma SignedIssue(env: Env, s: Store, c: Cached, x: Intent, now: Time)
    requires FIRST_EPOCH <= c.epoch
    ensures forall p | p in AppendSigned(env, s, c, x, now).issued ::
              p in s.issued || SignsEntry(env, SignedEntry(env, s.log, c, x, now), p)
  {
    SignedEntryChecks(env, s, c, x, now);
  }

  lemma LegacyAppendKeeps(env: Env, s: Store, x: Intent, now: Time)
    requires StoreInv(env, s) && !ChainActive(s.log) && IntentOk(x)
    requires ReadsBack(env, LegacyEntry(x, now))
    ensures StoreInv(env, s.(log := s.log + [LegacyEntry(x, now)]))
  {
    var e := LegacyEntry(x, now);
    var t := s.(log := s.log + [e]);
    InactiveMeansLegacy(env, s);
    assert forall j | 0 <= j < |s.log| :: t.log[j] == s.log[j];
    AppendKeeps(env, s, t, e);
  }

  lemma UnsignedAppendKeeps(env: Env, s: Store, x: Intent, now: Time)
    requires StoreInv(env, s) && ChainActive(s.log) && IntentOk(x) && TailEpoch(s.log) == FIRST_EPOCH
    requires ReadsBack(env, UnsignedEntry(env, s.log, x, now))
    ensures StoreInv(env, s.(log := s.log + [UnsignedEntry(env, s.log, x, now)]))
  {
    var e := UnsignedEntry(env, s.log, x, now);
    var t := s.(log := s.log + [e]);
    TailEpochByPosition(env, s);
    LinesGrow(env, s.log, e);
    EpochAtPrefix(s.log, t.log, |s.log|);
    AppendKeeps(env, s, t, e);
  }

  /** The fallback is safe exactly while the log is in its first epoch: its entry declares no epoch, so
      at any later epoch it breaks the chain for good. */
  lemma UnsignedAppendSafeIffFirstEpoch(env: Env, s: Store, x: Intent, now: Time)
    requires StoreInv(env, s) && ChainActive(s.log) && IntentOk(x)
    requires ReadsBack(env, UnsignedEntry(env, s.log, x, now))
    ensures var t := s.(log := s.log + [UnsignedEntry(env, s.log, x, now)]);
            ChainValid(View(env, t), |t.log|) <==> TailEpoch(s.log) == FIRST_EPOCH
  {
    var t := s.(log := s.log + [UnsignedEntry(env, s.log, x, now)]);
    TailEpochByPosition(env, s);
    EpochAtPrefix(s.log, t.log, |s.log|);
    if TailEpoch(s.log) == FIRST_EPOCH {
      UnsignedAppendKeeps(env, s, x, now);
    } else {
      assert !EntryOk(View(env, t), |s.log|);
    }
  }

  // ---------- the other store writes ----------

  lemma PutAnchorAnchors(env: Env, s: Store, c: Cached, now: Time)
    requires PairOk(s, c)
    ensures AnchorInv(env, PutAnchor(env, s, c, now))
  {
    var a := PutAnchor(env, s, c, now).anchor.value;
    assert AnchorSignBytes(a) == AnchorSignBytes(UnsealedAnchor(env, s.log, c.epoch, now));
    assert EffectiveEpoch(a.keyEpoch) == c.epoch;
  }

  lemma PutAnchorIssues(env: Env, s: Store, c: Cached, now: Time)
    requires IssuedInv(env, s)
    ensures IssuedInv(env, PutAnchor(env, s, c, now))
  {
    var t := PutAnchor(env, s, c, now);
    var a := UnsealedAnchor(env, s.log, c.epoch, now);
    assert AnchorsPrefix(env, s.log, a);
    forall p | p in t.issued ensures IssuedFor(env, t.log, p) {
      if p in s.issued {
        assert IssuedFor(env, s.log, p);
      } else {
        assert SignsAnchor(env, t.log, a, p);
      }
    }
  }

  lemma PutAnchorKeeps(env: Env, s: Store, c: Cached, now: Time)
    requires StoreInv(env, s) && PairOk(s, c)
    ensures StoreInv(env, PutAnchor(env, s, c, now))
  {
    assert View(env, PutAnchor(env, s, c, now)) == View(env, s);
    PutAnchorAnchors(env, s, c, now);
    PutAnchorIssues(env, s, c, now);
  }

  /** A key may be stored at an epoch beyond the tail, or at the first epoch while none is there. */
  lemma PutKeyKeeps(env: Env, s: Store, epoch: nat, key: string)
    requires StoreInv(env, s) && 1 <= epoch
    requires epoch > Tail(s.log) || epoch !in s.kc.keys
    ensures StoreInv(env, PutKey(s, epoch, key))
    ensures forall e | e in s.kc.keys && e <= Tail(s.log) :: PutKey(s, epoch, key).kc.keys[e] == s.kc.keys[e]
  {
    var t := PutKey(s, epoch, key);
    assert SameKnownKeys(View(env, s), View(env, t));
    ChainCarries(View(env, s), View(env, t));
    assert IssuedInv(env, t);
  }

  lemma PutPointerKeeps(env: Env, s: Store, epoch: uint32)
    requires StoreInv(env, s) && epoch == Tail(s.log)
    ensures StoreInv(env, PutPointer(s, epoch))
  {
    var t := PutPointer(s, epoch);
    ChainCarries(View(env, s), View(env, t));
    assert IssuedInv(env, t);
  }

  lemma AddCounterKeeps(env: Env, s: Store, delta: nat)
    requires StoreInv(env, s)
    ensures StoreInv(env, AddCounter(s, delta))
  {
    var t := AddCounter(s, delta);
    ChainCarries(View(env, s), View(env, t));
    assert IssuedInv(env, t);
  }

  lemma SignCapabilityKeeps(env: Env, s: Store, c: Capability)
    requires StoreInv(env, s) && 1 in s.kc.keys && ShortCapability(c)
    ensures StoreInv(env, SignCapability(s, c))
  {
    hide CapabilityBytes;
    var t := SignCapability(s, c);
    assert View(env, t) == View(env, s);
    forall p | p in t.issued ensures IssuedFor(env, t.log, p) {
      if p in s.issued {
        assert IssuedFor(env, s.log, p);
      } else {
        assert SignsCapability(c, p);
      }
    }
  }

  lemma EmptyStoreInv(env: Env)
    ensures StoreInv(env, EMPTY_STORE)
  {
  }
}
