/** Soundness of the verifier against anyone who can rewrite the log and the anchor but not the keychain.

    Two assumptions, both about the lines at hand: no two of them collide under the hash, and every
    signature on them that checks out under a stored key was issued by a writer.
  */
module TamperEvidence {
  import opened Text
  import opened Framing
  import opened Chain
  import opened Verifier
  import opened Writers
  import opened Invariant
  import opened Machine
  import opened Guarantees

  /** No presented line shares its digest with a different honest line. */
  ghost predicate NoCollision(env: Env, lines: seq<string>, honest: seq<string>) {
    forall i, j | 0 <= i < |lines| && 0 <= j < |honest| && env.sha(lines[i]) == env.sha(honest[j]) :: lines[i] == honest[j]
  }

  /** Every presented entry signature that a stored key confirms was issued. */
  ghost predicate EntriesUnforged(env: Env, s: Store, es: seq<Entry>) {
    forall i, e: uint32 | 0 <= i < |es| && e in s.kc.keys && GenuineSig(env, s.kc.keys[e], es[i], e) ::
      (s.kc.keys[e], SignBytesEpoch(InputOf(env, es[i]).value, e)) in s.issued
  }

  /** The presented anchor's seal, if a stored key confirms it, was issued. */
  ghost predicate AnchorUnforged(env: Env, s: Store, a: Anchor) {
    var e := EffectiveEpoch(a.keyEpoch);
    KeyIndex(e) in s.kc.keys && SealedUnder(env, s.kc.keys[KeyIndex(e)], a) ==>
      (s.kc.keys[KeyIndex(e)], AnchorSignBytes(a)) in s.issued
  }

  /** A log line is at most 1 MiB, so an operation name parsed from it is far below this bound. */
  predicate ShortOps(es: seq<Entry>) {
    forall i | 0 <= i < |es| :: |es[i].op| < TITLE_LIMIT
  }

  /** A presented log, and what is assumed of it. */
  ghost predicate Presented(env: Env, s: Store, lines: seq<string>, es: seq<Entry>) {
    && ParseAll(env, lines) == Some(es)
    && NoCollision(env, lines, Lines(env, s.log))
    && EntriesUnforged(env, s, es)
    && ShortOps(es)
  }

  // ---------- walking two chains back together ----------

  /** Index of the first chained entry. */
  function LegacyHead(log: seq<Entry>): (n: nat)
    ensures n <= |log|
    ensures forall i | 0 <= i < n :: !IsChained(log[i])
    ensures n < |log| ==> IsChained(log[n])
  {
    if log == [] || IsChained(log[0]) then 0 else 1 + LegacyHead(log[1..])
  }

  /** The oldest line that the chain pins: the predecessor of the first chained entry. */
  function FirstPinned(log: seq<Entry>): nat {
    if LegacyHead(log) == 0 then 0 else LegacyHead(log) - 1
  }

  lemma ChainedFromHead(c: Scanned, i: nat)
    requires c.Aligned() && ChainValid(c, |c.entries|) && LegacyHead(c.entries) <= i < |c.entries|
    ensures IsChained(c.entries[i])
  {
    assert EntryOk(c, i);
  }

  lemma HexLinksAgree(env: Env, a: string, b: string)
    requires HashOf(env, a) == HashOf(env, b)
    ensures env.sha(a) == env.sha(b)
  {
    HexInjective(env.sha(a), env.sha(b));
  }

  lemma GenesisIsNoHash(env: Env, a: string)
    ensures HashOf(env, a) != GENESIS
  {
    assert |HashOf(env, a)| == 64;
  }

  lemma HonestLineAt(env: Env, s: Store, lines: seq<string>, es: seq<Entry>, i: nat, j: nat)
    requires Readable(env, s.log) && ParseAll(env, lines) == Some(es)
    requires i < |lines| && j < |s.log| && lines[i] == Lines(env, s.log)[j]
    ensures es[i] == s.log[j]
  {
    ParseAllAt(env, lines, i);
    assert ReadsBack(env, s.log[j]);
  }

  /** Same link, same line before it, or both at genesis. */
  lemma LinkPinsLine(env: Env, s: Store, c: Scanned, i: nat, j: nat)
    requires StoreInv(env, s) && Presented(env, s, c.lines, c.entries) && c.env == env && c.Aligned()
    requires i < |c.entries| && EntryOk(c, i) && j < |s.log|
    requires IsChained(s.log[j]) && c.entries[i].prevHash == s.log[j].prevHash
    ensures i == 0 <==> j == 0
    ensures i > 0 ==> c.lines[i - 1] == Lines(env, s.log)[j - 1] && c.entries[i - 1] == s.log[j - 1]
  {
    hide HonestEntries, PointerInv, KeysInv, AnchorInv, IssuedInv, EntriesUnforged, HexEncode;
    var g := View(env, s);
    assert EntryOk(g, j);
    if i > 0 {
      GenesisIsNoHash(env, c.lines[i - 1]);
    }
    if j > 0 {
      GenesisIsNoHash(env, g.lines[j - 1]);
    }
    if i > 0 {
      HexLinksAgree(env, c.lines[i - 1], g.lines[j - 1]);
      HonestLineAt(env, s, c.lines, c.entries, i - 1, j - 1);
    }
  }

  /** Two entries with the same link share their whole past, line for line, back to the predecessor of
      the first chained honest entry; if the honest log was born at genesis they also share their index. */
  lemma {:induction false} SharedPast(env: Env, s: Store, c: Scanned, i: nat, j: nat)
    requires StoreInv(env, s) && Presented(env, s, c.lines, c.entries) && c.env == env && c.Aligned()
    requires ChainValid(c, |c.entries|) && i < |c.entries|
    requires LegacyHead(s.log) <= j < |s.log| && c.entries[i].prevHash == s.log[j].prevHash
    ensures i >= j - FirstPinned(s.log)
    ensures c.lines[i - (j - FirstPinned(s.log))..i] == Lines(env, s.log)[FirstPinned(s.log)..j]
    ensures LegacyHead(s.log) == 0 ==> i == j
    decreases j
  {
    hide Presented, StoreInv, EntryOk, HexEncode, LegacyHead;
    StoreChainValid(env, s);
    ChainedFromHead(View(env, s), j);
    LinkPinsLine(env, s, c, i, j);
    var first := FirstPinned(s.log);
    if j > first {
      var honest := Lines(env, s.log);
      if j - 1 >= LegacyHead(s.log) {
        SharedPast(env, s, c, i - 1, j - 1);
      }
      assert honest[first..j] == honest[first..j - 1] + [honest[j - 1]];
      assert c.lines[i - (j - first)..i] == c.lines[i - (j - first)..i - 1] + [c.lines[i - 1]];
    }
  }

  lemma StoreChainValid(env: Env, s: Store)
    requires StoreInv(env, s)
    ensures ChainValid(View(env, s), |s.log|)
  {
  }

  // ---------- entry signatures ----------

  /** An issued entry signature is the signature of an honest entry: neither an anchor nor a capability URL
      can supply it, and the framing fixes the fields and the epoch. */
  lemma IssuedEntrySignature(env: Env, s: Store, key: string, x: SignInput, epoch: uint32) returns (j: nat)
    requires IssuedInv(env, s) && HonestEntries(s.log)
    requires (key, SignBytesEpoch(x, epoch)) in s.issued && |x.title| < TITLE_LIMIT && x.time != ""
    ensures j < |s.log| && s.log[j].sig != "" && InputOf(env, s.log[j]).Some?
    ensures Clamped(InputOf(env, s.log[j]).value) == Clamped(x)
    ensures EffectiveEpoch(s.log[j].keyEpoch) == EffectiveEpoch(epoch)
  {
    var p := (key, SignBytesEpoch(x, epoch));
    assert IssuedFor(env, s.log, p);
    if a: Anchor :| SignsAnchor(env, s.log, a, p) {
      DomainsSeparate(a, x, epoch);
    }
    if c: Capability :| SignsCapability(c, p) {
      CapabilityIsNoEntry(c, x, epoch);
    }
    j :| 0 <= j < |s.log| && SignsEntry(env, s.log[j], p);
    FramingInjective(InputOf(env, s.log[j]).value, EffectiveEpoch(s.log[j].keyEpoch), x, epoch);
  }

  /** The chain links are far below the clamp, so equal signed inputs have equal links. */
  lemma ClampedLink(env: Env, lines: seq<string>, i: nat)
    requires i <= |lines|
    ensures Clamp(Link(env, lines, i)) == Link(env, lines, i)
  {
  }

  /** What a signature pins of its own entry: every signed field (cut at 2^32 bytes) and the epoch. */
  predicate SameSigned(env: Env, e: Entry, f: Entry) {
    && InputOf(env, e).Some? && InputOf(env, f).Some?
    && Clamped(InputOf(env, e).value) == Clamped(InputOf(env, f).value)
    && EffectiveEpoch(e.keyEpoch) == EffectiveEpoch(f.keyEpoch)
  }

  lemma AcceptedSignature(env: Env, s: Store, c: Scanned, i: nat) returns (j: nat)
    requires StoreInv(env, s) && Presented(env, s, c.lines, c.entries) && c.env == env && c.Aligned()
    requires c.ring == Ring(s.kc) && c.hasKeys
    requires i < |c.entries| && EntryOk(c, i) && c.entries[i].sig != ""
    ensures j < |s.log| && s.log[j].sig != "" && SameSigned(env, c.entries[i], s.log[j])
  {
    hide AnchorInv, Readable, PointerInv, KeysInv, Chain.ChainValid, IssuedInv, NoCollision, SignBytesEpoch;
    var e := c.entries[i];
    var epoch := EffectiveEpoch(e.keyEpoch);
    assert GenuineSig(env, s.kc.keys[epoch], e, epoch);
    j := IssuedEntrySignature(env, s, s.kc.keys[epoch], InputOf(env, e).value, epoch);
  }

  lemma SignedIsChained(env: Env, s: Store, j: nat)
    requires StoreInv(env, s) && j < |s.log| && s.log[j].sig != ""
    ensures IsChained(s.log[j]) && j >= LegacyHead(s.log)
    ensures s.log[j].prevHash == Link(env, Lines(env, s.log), j)
  {
    assert EntryOk(View(env, s), j);
  }

  /** Soundness: a signed entry of any accepted log is an honest entry in every signed field, and every
      line before it is the honest line, back to the predecessor of the first chained honest entry; for
      a log born at genesis that is the whole past, at the same index. */
  lemma SignedEntriesAreHonest(env: Env, s: Store, c: Scanned, i: nat) returns (j: nat)
    requires StoreInv(env, s) && Presented(env, s, c.lines, c.entries) && c.env == env && c.Aligned()
    requires c.ring == Ring(s.kc) && c.hasKeys && ChainValid(c, |c.entries|)
    requires i < |c.entries| && c.entries[i].sig != ""
    ensures j < |s.log| && s.log[j].sig != "" && SameSigned(env, c.entries[i], s.log[j])
    ensures FirstPinned(s.log) <= j && i >= j - FirstPinned(s.log)
    ensures c.lines[i - (j - FirstPinned(s.log))..i] == Lines(env, s.log)[FirstPinned(s.log)..j]
    ensures LegacyHead(s.log) == 0 ==> i == j && c.lines[..i] == Lines(env, s.log)[..i]
  {
    hide StoreInv, Presented;
    assert EntryOk(c, i);
    j := AcceptedSignature(env, s, c, i);
    SignedIsChained(env, s, j);
    ClampedLink(env, Lines(env, s.log), j);
    ClampedLink(env, c.lines, i);
    assert c.entries[i].prevHash == s.log[j].prevHash;
    SharedPast(env, s, c, i, j);
  }

  // ---------- anchored history ----------

  /** A genuine anchor, whoever presents it, describes a prefix of the honest log. */
  lemma GenuineAnchorIsHonest(env: Env, s: Store, a: Anchor)
    requires StoreInv(env, s) && AnchorUnforged(env, s, a) && GenuineAnchor(env, Ring(s.kc), a)
    requires NulFree(a.lastHash)
    ensures AnchorsPrefix(env, s.log, a)
  {
    hide Chain.ChainValid, Readable, PointerInv, KeysInv, AnchorInv, AnchorSignBytes, SignBytesEpoch;
    var p := (s.kc.keys[KeyIndex(EffectiveEpoch(a.keyEpoch))], AnchorSignBytes(a));
    assert IssuedFor(env, s.log, p);
    if i :| 0 <= i < |s.log| && SignsEntry(env, s.log[i], p) {
      assert HonestEntry(s.log[i]);
      DomainsSeparate(a, InputOf(env, s.log[i]).value, EffectiveEpoch(s.log[i].keyEpoch));
    }
    if c: Capability :| SignsCapability(c, p) {
      CapabilityIsNoAnchor(c, a);
    }
    var b: Anchor :| SignsAnchor(env, s.log, b, p);
    if b.entryCount > 0 {
      HexHasNoNul(env.sha(env.marshal(s.log[b.entryCount - 1])));
    }
    AnchorHeadFixed(a, b);
  }

  lemma HashHasNoNul(env: Env, line: string)
    ensures NulFree(HashOf(env, line))
  {
    HexHasNoNul(env.sha(line));
  }

  /** The history under an anchor is fixed: any log that is sound under any genuine anchor has the honest
      log's lines from the first pinned one up to the anchored count, at the same indices, and at least
      as many lines as the anchor and the counter recorded. */
  lemma AnchoredHistoryIsFixed(env: Env, s: Store, c: Scanned, a: Anchor)
    requires StoreInv(env, s) && Presented(env, s, c.lines, c.entries) && c.env == env && c.Aligned()
    requires c.ring == Ring(s.kc) && c.hasKeys && Sound(c, Pointer(s.kc), Value(a)) && AnchorUnforged(env, s, a)
    requires a.entryCount > 0
    ensures a.entryCount <= |s.log| && a.entryCount <= |c.lines|
    ensures c.lines[a.entryCount - 1] == Lines(env, s.log)[a.entryCount - 1]
    ensures forall k | FirstPinned(s.log) <= k < a.entryCount :: c.lines[k] == Lines(env, s.log)[k]
  {
    hide StoreInv, Presented, VerifyAnchor, EntryOk, HexEncode, AnchorUnforged;
    var n := a.entryCount;
    HashHasNoNul(env, c.lines[n - 1]);
    GenuineAnchorIsHonest(env, s, a);
    AnchoredLine(env, s, c, n);
    if n - 1 >= LegacyHead(s.log) {
      SharedPastAt(env, s, c, n - 1);
    }
  }

  lemma AnchoredLine(env: Env, s: Store, c: Scanned, n: nat)
    requires StoreInv(env, s) && Presented(env, s, c.lines, c.entries) && c.Aligned()
    requires 0 < n <= |c.lines| && n <= |s.log|
    requires HashOf(env, c.lines[n - 1]) == HashOf(env, env.marshal(s.log[n - 1]))
    ensures c.lines[n - 1] == Lines(env, s.log)[n - 1] && c.entries[n - 1] == s.log[n - 1]
  {
    hide Chain.ChainValid, IssuedInv, AnchorInv, EntriesUnforged;
    HexLinksAgree(env, c.lines[n - 1], env.marshal(s.log[n - 1]));
    HonestLineAt(env, s, c.lines, c.entries, n - 1, n - 1);
  }

  lemma SharedPastAt(env: Env, s: Store, c: Scanned, i: nat)
    requires StoreInv(env, s) && Presented(env, s, c.lines, c.entries) && c.env == env && c.Aligned()
    requires ChainValid(c, |c.entries|) && LegacyHead(s.log) <= i < |s.log| && i < |c.entries|
    requires c.entries[i] == s.log[i]
    ensures forall k | FirstPinned(s.log) <= k < i :: c.lines[k] == Lines(env, s.log)[k]
  {
    hide StoreInv, Presented, EntryOk;
    SharedPast(env, s, c, i, i);
    var first := FirstPinned(s.log);
    var honest := Lines(env, s.log);
    forall k | first <= k < i ensures c.lines[k] == honest[k] {
      assert c.lines[first..i][k - first] == honest[first..i][k - first];
    }
  }

  // ---------- the two together, for every reachable state ----------

  /** Tamper evidence: take any reachable state born at genesis, and any log and anchor put in place of
      its own. If `Verify` passes them under the state's keychain, then they are at least as long as the
      anchor and the counter recorded, agree with the honest log on every anchored line, and agree with
      it on everything up to their last signed entry. */
  lemma PassingLogIsHonest(env: Env, s: System, lines: seq<string>, es: seq<Entry>, a: Anchor)
    requires Reachable(env, s) && CurrentPair(s.store.kc).Some? && LegacyHead(s.store.log) == 0
    requires Presented(env, s.store, lines, es) && AnchorUnforged(env, s.store, a)
    requires Passes(Verify(env, lines, Value(a), Ring(s.store.kc)))
    ensures a.entryCount <= |lines| && CounterOf(s.store.kc) <= |lines|
    ensures a.entryCount <= |s.store.log|
    ensures forall k | 0 <= k < a.entryCount :: lines[k] == Lines(env, s.store.log)[k]
    ensures forall i | 0 <= i < |es| && es[i].sig != "" ::
              i < |s.store.log| && lines[..i] == Lines(env, s.store.log)[..i] && SameSigned(env, es[i], s.store.log[i])
  {
    hide StoreInv, Presented, AnchorUnforged, CounterInv, SameSigned;
    ReachableInv(env, s);
    InvGivesStoreInv(env, s);
    CurrentOfStore(env, s.store);
    var c := ScannedBy(env, lines, Ring(s.store.kc));
    PassMeansSound(env, lines, Value(a), Ring(s.store.kc).value);
    PresentedParses(env, s.store, lines, es);
    if a.entryCount > 0 {
      AnchoredHistoryIsFixed(env, s.store, c, a);
    }
    forall i | 0 <= i < |es| && es[i].sig != ""
      ensures i < |s.store.log| && lines[..i] == Lines(env, s.store.log)[..i] && SameSigned(env, es[i], s.store.log[i])
    {
      var j := SignedEntriesAreHonest(env, s.store, c, i);
    }
  }

  lemma PresentedParses(env: Env, s: Store, lines: seq<string>, es: seq<Entry>)
    requires Presented(env, s, lines, es)
    ensures ParseAll(env, lines) == Some(es)
  {
  }
}
