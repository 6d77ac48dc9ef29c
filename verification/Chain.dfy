/** The log, the keychain as a reader sees it, and the chain walk with its meaning.

    `Walk` follows the verifier's own order of checks entry by entry. `EntryOk` and `ChainValid` say,
    without any running state, which logs it is meant to accept.
  */
module Chain {
  import opened Text
  import opened Framing

  const OP_ROTATE := "rotate-audit-hmac"
  const GENESIS := "genesis"
  const LINE_LIMIT: nat := 0x10_0000

  /** An instant; only its seconds reach a signature. */
  datatype Time = Time(seconds: int, nanos: int)

  datatype Entry = Entry(
    time: Time,
    op: string,
    target: string,
    hash: string,
    dryRun: bool,
    prevHash: string,
    sig: string,
    keyEpoch: uint32)

  /** The text of an instant is never empty. */
  type TimeText = s: string | s != "" witness "T"

  /** The primitives the code calls but does not define. No property of them is built in beyond the
      size of a digest and that a time has some text. */
  datatype Env = Env(
    sha: string -> Digest,
    mac: (string, string) -> Digest,
    marshal: Entry -> string,
    parse: string -> Option<Entry>,
    rfc3339: int -> TimeText)

  // ---------- the keychain ----------

  datatype Account = PointerAccount | CounterAccount | KeyAccount(epoch: nat)

  datatype Read<+T> = Value(v: T) | Absent | Unavailable

  /** `keys` is indexed by account: epoch 1 is the original account, and no key is ever stored under 0. */
  datatype Keychain = Keychain(pointer: Option<uint32>, keys: map<nat, string>, counter: Option<int>)

  /** A keychain together with the accounts whose reads fail for a reason other than absence. */
  datatype Keyring = Keyring(kc: Keychain, down: set<Account>)

  function KeyIndex(epoch: nat): nat {
    if epoch <= 1 then 1 else epoch
  }

  function ReadPointer(ring: Keyring): Read<uint32> {
    if PointerAccount in ring.down then Unavailable
    else match ring.kc.pointer
         case None => Value(FIRST_EPOCH)
         case Some(p) => if p < FIRST_EPOCH then Unavailable else Value(p)
  }

  function ReadCounter(ring: Keyring): Read<int> {
    if CounterAccount in ring.down then Unavailable
    else match ring.kc.counter
         case None => Absent
         case Some(n) => Value(n)
  }

  function FetchKey(ring: Option<Keyring>, epoch: nat): Read<string> {
    if ring.None? then Absent
    else if KeyAccount(KeyIndex(epoch)) in ring.value.down then Unavailable
    else if KeyIndex(epoch) in ring.value.kc.keys then Value(ring.value.kc.keys[KeyIndex(epoch)])
    else Absent
  }

  // ---------- entries ----------

  function HashOf(env: Env, content: string): string {
    HexEncode(env.sha(content))
  }

  /** The epoch a marker target names, 0 when it is not of the form "epoch:N" with N at least 2. */
  function RotationTarget(target: string): uint32 {
    if "epoch:" <= target then
      match ParseUint32(target[6..])
      case Some(n) => if n < 2 then 0 else n
      case None => 0
    else 0
  }

  function MarkerTarget(epoch: nat): string {
    "epoch:" + Decimal(epoch)
  }

  lemma MarkerTargetRoundTrip(epoch: nat)
    requires 2 <= epoch <= MAX_UINT32
    ensures RotationTarget(MarkerTarget(epoch)) == epoch
  {
    DecimalRoundTrip(epoch);
    assert MarkerTarget(epoch)[6..] == Decimal(epoch);
  }

  /** The signing input the verifier rebuilds from a stored entry, when its hash is 32 bytes of hex. */
  function InputOf(env: Env, e: Entry): Option<SignInput> {
    match HexDecode(e.hash)
    case None => None
    case Some(raw) =>
      if |raw| != 32 then None
      else Some(SignInput(e.op, e.target, env.rfc3339(e.time.seconds), e.dryRun, e.prevHash, raw))
  }

  function VerifyHmac(env: Env, key: string, x: SignInput, sig: string, epoch: uint32): bool {
    HexDecode(sig) == Some(env.mac(key, SignBytesEpoch(x, epoch)))
  }

  predicate SigValid(env: Env, key: string, e: Entry, epoch: uint32) {
    InputOf(env, e).Some? && VerifyHmac(env, key, InputOf(env, e).value, e.sig, epoch)
  }

  predicate IsChained(e: Entry) {
    e.prevHash != ""
  }

  predicate IsMarker(e: Entry) {
    IsChained(e) && e.op == OP_ROTATE
  }

  /** What the previous-hash field of line `i` has to say. */
  function Link(env: Env, lines: seq<string>, i: nat): string
    requires i <= |lines|
  {
    if i == 0 then GENESIS else HashOf(env, lines[i - 1])
  }

  // ---------- results ----------

  datatype Reason =
    | NoReason
    | PrevHashStripped
    | PrevHashMismatch
    | EpochMismatch
    | MalformedMarker
    | MarkerSkips
    | KeychainUnavailable
    | KeyMissing
    | SigMismatch
    | FingerprintMismatch
    | PointerKeyMissing
    | BoundaryTruncation
    | AnchorMissing
    | AnchorForged
    | HistoryRewrite
    | CounterAhead
    | CounterLagUnsigned
    | CounterLag

  datatype CounterStatus = Unchecked | Verified | Unknown | Mismatch

  datatype VerifyResult = VerifyResult(
    ok: bool,
    at: int,
    reason: Reason,
    truncated: bool,
    counter: CounterStatus,
    sigsVerified: nat,
    sigsSkipped: nat,
    indeterminate: bool,
    lastEpoch: uint32)

  function Bad(at: int, reason: Reason, indeterminate: bool): VerifyResult {
    VerifyResult(false, at, reason, false, Unchecked, 0, 0, indeterminate, 0)
  }

  const CLEAN := VerifyResult(true, -1, NoReason, false, Unchecked, 0, 0, false, FIRST_EPOCH)

  // ---------- the walk ----------

  /** Everything the walk reads: the raw lines, the entries parsed from them, and the keys. */
  datatype Scanned = Scanned(env: Env, ring: Option<Keyring>, lines: seq<string>, entries: seq<Entry>, hasKeys: bool) {
    predicate Aligned() {
      |lines| == |entries|
    }
  }

  function CheckSig(c: Scanned, e: Entry, i: nat, epoch: uint32): Option<VerifyResult> {
    if e.sig == "" || !c.hasKeys then None
    else match FetchKey(c.ring, epoch)
         case Unavailable => Some(Bad(i, KeychainUnavailable, true))
         case Absent => Some(Bad(i, KeyMissing, true))
         case Value(key) => if SigValid(c.env, key, e, epoch) then None else Some(Bad(i, SigMismatch, false))
  }

  function CheckCustody(c: Scanned, e: Entry, i: nat): Option<VerifyResult> {
    match FetchKey(c.ring, RotationTarget(e.target))
    case Unavailable => Some(Bad(i, KeychainUnavailable, true))
    case Absent => Some(Bad(i, KeyMissing, true))
    case Value(key) => if e.hash == HashOf(c.env, key) then None else Some(Bad(i, FingerprintMismatch, false))
  }

  /** One chained entry against the epoch in force: the first failed check, if any. */
  function CheckEntry(c: Scanned, i: nat, epoch: uint32): Option<VerifyResult>
    requires c.Aligned() && i < |c.entries|
  {
    var e := c.entries[i];
    var target := RotationTarget(e.target);
    if e.prevHash != Link(c.env, c.lines, i) then Some(Bad(i, PrevHashMismatch, false))
    else if EffectiveEpoch(e.keyEpoch) != epoch then Some(Bad(i, EpochMismatch, false))
    else if e.op == OP_ROTATE && target == 0 then Some(Bad(i, MalformedMarker, false))
    else if e.op == OP_ROTATE && target != (epoch + 1) % (MAX_UINT32 + 1) then Some(Bad(i, MarkerSkips, false))
    else if CheckSig(c, e, i, epoch).Some? then CheckSig(c, e, i, epoch)
    else if e.op == OP_ROTATE && c.hasKeys then CheckCustody(c, e, i)
    else None
  }

  datatype WalkState = Walking(started: bool, epoch: uint32, r: VerifyResult) | Stopped(r: VerifyResult)

  function CountSig(c: Scanned, e: Entry, r: VerifyResult): VerifyResult {
    if e.sig == "" || !c.hasKeys then r.(sigsSkipped := r.sigsSkipped + 1)
    else r.(sigsVerified := r.sigsVerified + 1)
  }

  function WalkStep(c: Scanned, i: nat, st: WalkState): WalkState
    requires c.Aligned() && i < |c.entries| && st.Walking?
  {
    var e := c.entries[i];
    if e.prevHash == "" then
      if st.started || e.sig != "" then Stopped(Bad(i, PrevHashStripped, false))
      else Walking(false, st.epoch, st.r.(sigsSkipped := st.r.sigsSkipped + 1))
    else
      match CheckEntry(c, i, st.epoch)
      case Some(bad) => Stopped(bad)
      case None =>
        var next := if e.op == OP_ROTATE then RotationTarget(e.target) else st.epoch;
        Walking(true, next, CountSig(c, e, st.r).(lastEpoch := next))
  }

  function WalkPrefix(c: Scanned, n: nat): WalkState
    requires c.Aligned() && n <= |c.entries|
  {
    if n == 0 then Walking(false, FIRST_EPOCH, CLEAN)
    else
      var st := WalkPrefix(c, n - 1);
      if st.Stopped? then st else WalkStep(c, n - 1, st)
  }

  function Walk(c: Scanned): VerifyResult
    requires c.Aligned()
  {
    WalkPrefix(c, |c.entries|).r
  }

  /** The walk as the verifier runs it: one pass, stopping at the first bad entry. */
  method WalkChain(c: Scanned) returns (result: VerifyResult)
    requires c.Aligned()
    ensures result == Walk(c)
  {
    hide CheckEntry, RotationTarget;
    result := CLEAN;
    var chainStarted := false;
    var expectedEpoch: uint32 := FIRST_EPOCH;
    for i := 0 to |c.entries|
      invariant WalkPrefix(c, i) == Walking(chainStarted, expectedEpoch, result)
    {
      var e := c.entries[i];
      assert WalkPrefix(c, i + 1) == WalkStep(c, i, Walking(chainStarted, expectedEpoch, result));
      if e.prevHash == "" {
        if chainStarted || e.sig != "" {
          result := Bad(i, PrevHashStripped, false);
          StoppedForGood(c, i + 1, |c.entries|);
          return;
        }
        result := result.(sigsSkipped := result.sigsSkipped + 1);
      } else {
        chainStarted := true;
        var bad := CheckEntry(c, i, expectedEpoch);
        if bad.Some? {
          result := bad.value;
          StoppedForGood(c, i + 1, |c.entries|);
          return;
        }
        result := CountSig(c, e, result);
        if e.op == OP_ROTATE {
          expectedEpoch := RotationTarget(e.target);
        }
        result := result.(lastEpoch := expectedEpoch);
      }
    }
  }

  lemma {:induction false} StoppedForGood(c: Scanned, i: nat, n: nat)
    requires c.Aligned() && i <= n <= |c.entries|
    requires WalkPrefix(c, i).Stopped?
    ensures WalkPrefix(c, n) == WalkPrefix(c, i)
    decreases n
  {
    hide WalkStep;
    if i < n {
      StoppedForGood(c, i, n - 1);
    }
  }

  // ---------- what the walk means ----------

  /** The epoch in force at position `i`: one more than the rotation markers before it. */
  function EpochAt(es: seq<Entry>, i: nat): (epoch: nat)
    requires i <= |es|
    ensures epoch >= 1
  {
    if i == 0 then 1 else EpochAt(es, i - 1) + if IsMarker(es[i - 1]) then 1 else 0
  }

  function SignedBefore(es: seq<Entry>, i: nat): (count: nat)
    requires i <= |es|
    ensures count <= i
  {
    if i == 0 then 0 else SignedBefore(es, i - 1) + if es[i - 1].sig != "" then 1 else 0
  }

  /** The signature is the code of the entry's own fields under this key. */
  predicate GenuineSig(env: Env, key: string, e: Entry, epoch: uint32) {
    InputOf(env, e).Some? && HexDecode(e.sig) == Some(env.mac(key, SignBytesEpoch(InputOf(env, e).value, epoch)))
  }

  predicate SigOk(c: Scanned, e: Entry) {
    e.sig == "" || !c.hasKeys ||
    var epoch := EffectiveEpoch(e.keyEpoch);
    FetchKey(c.ring, epoch).Value? && GenuineSig(c.env, FetchKey(c.ring, epoch).v, e, epoch)
  }

  predicate CustodyOk(c: Scanned, e: Entry) {
    e.op == OP_ROTATE && c.hasKeys ==>
      var key := FetchKey(c.ring, RotationTarget(e.target));
      key.Value? && e.hash == HashOf(c.env, key.v)
  }

  /** Entry `i` is in order: an unchained entry is unsigned and part of the head of the log; a chained
      one links to the line before it, declares the epoch its position gives it, steps that epoch by
      exactly one if it is a marker, and carries no signature or a genuine one. */
  ghost predicate EntryOk(c: Scanned, i: nat)
    requires c.Aligned() && i < |c.entries|
  {
    var e := c.entries[i];
    if !IsChained(e) then
      e.sig == "" && forall j | 0 <= j < i :: !IsChained(c.entries[j])
    else
      && e.prevHash == Link(c.env, c.lines, i)
      && EffectiveEpoch(e.keyEpoch) == EpochAt(c.entries, i)
      && (e.op == OP_ROTATE ==> RotationTarget(e.target) == EpochAt(c.entries, i) + 1)
      && SigOk(c, e)
      && CustodyOk(c, e)
  }

  ghost predicate ChainValid(c: Scanned, n: nat)
    requires c.Aligned() && n <= |c.entries|
  {
    forall i | 0 <= i < n :: EntryOk(c, i)
  }

  ghost predicate Started(es: seq<Entry>, n: nat)
    requires n <= |es|
  {
    exists j | 0 <= j < n :: IsChained(es[j])
  }

  /** The state of an unstopped walk after `n` entries. */
  ghost predicate WalkedTo(c: Scanned, n: nat, st: WalkState)
    requires c.Aligned() && n <= |c.entries|
  {
    && st.Walking?
    && st.started == Started(c.entries, n)
    && st.epoch == EpochAt(c.entries, n)
    && st.r == CLEAN.(sigsVerified := if c.hasKeys then SignedBefore(c.entries, n) else 0,
                      sigsSkipped := if c.hasKeys then n - SignedBefore(c.entries, n) else n,
                      lastEpoch := EpochAt(c.entries, n))
  }

  lemma NextEpochDoesNotWrap(target: uint32, epoch: uint32)
    ensures target != 0 && target == (epoch + 1) % (MAX_UINT32 + 1) <==> target == epoch + 1
  {
    assert (epoch + 1) % (MAX_UINT32 + 1) == if epoch == MAX_UINT32 then 0 else epoch + 1;
  }

  lemma CheckSigMeaning(c: Scanned, e: Entry, i: nat, epoch: uint32)
    requires EffectiveEpoch(e.keyEpoch) == epoch
    ensures CheckSig(c, e, i, epoch).None? <==> SigOk(c, e)
    ensures CheckSig(c, e, i, epoch).Some? ==> CheckSig(c, e, i, epoch).value.at == i && !CheckSig(c, e, i, epoch).value.ok
  {
  }

  lemma CheckCustodyMeaning(c: Scanned, e: Entry, i: nat)
    ensures e.op == OP_ROTATE && c.hasKeys ==> (CheckCustody(c, e, i).None? <==> CustodyOk(c, e))
    ensures CheckCustody(c, e, i).Some? ==> CheckCustody(c, e, i).value.at == i && !CheckCustody(c, e, i).value.ok
  {
  }

  lemma CheckEntryMeaning(c: Scanned, i: nat, epoch: uint32)
    requires c.Aligned() && i < |c.entries| && IsChained(c.entries[i])
    requires epoch == EpochAt(c.entries, i)
    ensures CheckEntry(c, i, epoch).None? <==> EntryOk(c, i)
    ensures CheckEntry(c, i, epoch).Some? ==> CheckEntry(c, i, epoch).value.at == i && !CheckEntry(c, i, epoch).value.ok
  {
    var e := c.entries[i];
    NextEpochDoesNotWrap(RotationTarget(e.target), epoch);
    if EffectiveEpoch(e.keyEpoch) == epoch {
      CheckSigMeaning(c, e, i, epoch);
    }
    CheckCustodyMeaning(c, e, i);
  }

  lemma StartedStep(es: seq<Entry>, k: nat)
    requires k < |es|
    ensures Started(es, k + 1) == (Started(es, k) || IsChained(es[k]))
  {
    if IsChained(es[k]) {
      assert Started(es, k + 1);
    }
  }

  lemma WalkStepMeaning(c: Scanned, k: nat, st: WalkState)
    requires c.Aligned() && k < |c.entries| && WalkedTo(c, k, st)
    ensures WalkStep(c, k, st).Walking? <==> EntryOk(c, k)
    ensures WalkStep(c, k, st).Walking? ==> WalkedTo(c, k + 1, WalkStep(c, k, st))
    ensures WalkStep(c, k, st).Stopped? ==> !WalkStep(c, k, st).r.ok && WalkStep(c, k, st).r.at == k
  {
    StartedStep(c.entries, k);
    if IsChained(c.entries[k]) {
      CheckEntryMeaning(c, k, st.epoch);
    }
  }

  /** The walk gets through `n` entries exactly when each of them is in order, and then it holds the
      epoch given by position; otherwise it names the first entry that is out of order. */
  lemma {:induction false} WalkMeaning(c: Scanned, n: nat)
    requires c.Aligned() && n <= |c.entries|
    ensures WalkPrefix(c, n).Walking? <==> ChainValid(c, n)
    ensures WalkPrefix(c, n).Walking? ==> WalkedTo(c, n, WalkPrefix(c, n))
    ensures WalkPrefix(c, n).Stopped? ==> !WalkPrefix(c, n).r.ok && FirstBad(c, n, WalkPrefix(c, n).r.at)
  {
    hide WalkStep, EntryOk, WalkedTo;
    if n == 0 {
      StartsWalking(c);
    } else {
      WalkMeaning(c, n - 1);
      var st := WalkPrefix(c, n - 1);
      if st.Walking? {
        WalkStepMeaning(c, n - 1, st);
        assert ChainValid(c, n) <==> EntryOk(c, n - 1);
      }
    }
  }

  lemma StartsWalking(c: Scanned)
    requires c.Aligned()
    ensures WalkedTo(c, 0, WalkPrefix(c, 0))
  {
  }

  ghost predicate FirstBad(c: Scanned, n: nat, at: int)
    requires c.Aligned() && n <= |c.entries|
  {
    0 <= at < n && ChainValid(c, at) && !EntryOk(c, at)
  }

  /** The walk accepts exactly the valid chains. What it then reports is fixed: the signatures it
      checked, the ones it passed over, and the epoch at the tail. What it rejects, it rejects at the
      first entry out of order. */
  lemma WalkAccepts(c: Scanned)
    requires c.Aligned()
    ensures Walk(c).ok <==> ChainValid(c, |c.entries|)
    ensures Walk(c).ok ==> WalkedTo(c, |c.entries|, Walking(Started(c.entries, |c.entries|), Walk(c).lastEpoch, Walk(c)))
    ensures !Walk(c).ok ==> FirstBad(c, |c.entries|, Walk(c).at)
  {
    WalkMeaning(c, |c.entries|);
  }

  // ---------- why the walk stops ----------

  /** The signature of entry `i` has to be checked, and the key of its epoch cannot be read. */
  predicate SigUnread(c: Scanned, e: Entry) {
    c.hasKeys && e.sig != "" && !FetchKey(c.ring, EffectiveEpoch(e.keyEpoch)).Value?
  }

  /** The signature is fine, but the key that the marker hands over to cannot be read. */
  predicate CustodyUnread(c: Scanned, e: Entry) {
    c.hasKeys && e.op == OP_ROTATE && SigOk(c, e) && !FetchKey(c.ring, RotationTarget(e.target)).Value?
  }

  /** Entry `i` is in order as far as anyone can tell without the key that is missing. */
  ghost predicate KeyUnread(c: Scanned, i: nat)
    requires c.Aligned() && i < |c.entries|
  {
    var e := c.entries[i];
    && IsChained(e)
    && e.prevHash == Link(c.env, c.lines, i)
    && EffectiveEpoch(e.keyEpoch) == EpochAt(c.entries, i)
    && (e.op == OP_ROTATE ==> RotationTarget(e.target) == EpochAt(c.entries, i) + 1)
    && (SigUnread(c, e) || CustodyUnread(c, e))
  }

  /** The stated reason is true of entry `i`. */
  ghost predicate ReasonHolds(c: Scanned, i: nat, reason: Reason)
    requires c.Aligned() && i < |c.entries|
  {
    var e := c.entries[i];
    match reason
    case PrevHashStripped => !IsChained(e) && (e.sig != "" || Started(c.entries, i))
    case PrevHashMismatch => IsChained(e) && e.prevHash != Link(c.env, c.lines, i)
    case EpochMismatch => IsChained(e) && EffectiveEpoch(e.keyEpoch) != EpochAt(c.entries, i)
    case MalformedMarker => IsMarker(e) && RotationTarget(e.target) == 0
    case MarkerSkips => IsMarker(e) && RotationTarget(e.target) != EpochAt(c.entries, i) + 1
    case KeychainUnavailable => KeyUnread(c, i)
    case KeyMissing => KeyUnread(c, i)
    case SigMismatch =>
      var key := FetchKey(c.ring, EffectiveEpoch(e.keyEpoch));
      c.hasKeys && e.sig != "" && key.Value? && !GenuineSig(c.env, key.v, e, EffectiveEpoch(e.keyEpoch))
    case FingerprintMismatch =>
      var key := FetchKey(c.ring, RotationTarget(e.target));
      c.hasKeys && IsMarker(e) && key.Value? && e.hash != HashOf(c.env, key.v)
    case _ => false
  }

  /** What a stopped walk says of the entry it stopped at: it names a reason that is true, claims no
      truncation, and calls the verdict indeterminate exactly when nothing but a key is missing. */
  ghost predicate StopTold(c: Scanned, i: nat, r: VerifyResult)
    requires c.Aligned() && i < |c.entries|
  {
    && !r.ok && r.at == i && !r.truncated
    && (r.indeterminate <==> KeyUnread(c, i))
    && ReasonHolds(c, i, r.reason)
  }

  lemma CheckEntryTells(c: Scanned, i: nat, epoch: uint32)
    requires c.Aligned() && i < |c.entries| && IsChained(c.entries[i]) && epoch == EpochAt(c.entries, i)
    ensures CheckEntry(c, i, epoch).Some? ==> StopTold(c, i, CheckEntry(c, i, epoch).value)
  {
    hide RotationTarget, Link, HashOf, InputOf, Framing.SignBytesEpoch;
    var e := c.entries[i];
    NextEpochDoesNotWrap(RotationTarget(e.target), epoch);
    if EffectiveEpoch(e.keyEpoch) == epoch {
      CheckSigMeaning(c, e, i, epoch);
    }
  }

  lemma {:induction false} StopIsTold(c: Scanned, n: nat)
    requires c.Aligned() && n <= |c.entries| && WalkPrefix(c, n).Stopped?
    ensures var r := WalkPrefix(c, n).r; 0 <= r.at < n && StopTold(c, r.at, r)
  {
    hide CheckEntry, StopTold, WalkStep;
    var st := WalkPrefix(c, n - 1);
    if st.Stopped? {
      StopIsTold(c, n - 1);
    } else {
      WalkMeaning(c, n - 1);
      StepTells(c, n - 1, st);
      assert WalkPrefix(c, n) == WalkStep(c, n - 1, st);
    }
  }

  lemma StepTells(c: Scanned, k: nat, st: WalkState)
    requires c.Aligned() && k < |c.entries| && WalkedTo(c, k, st) && WalkStep(c, k, st).Stopped?
    ensures StopTold(c, k, WalkStep(c, k, st).r) && WalkStep(c, k, st).r.at == k
  {
    hide CheckEntry;
    if IsChained(c.entries[k]) {
      CheckEntryTells(c, k, st.epoch);
    }
  }

  /** A rejected chain is rejected at its first entry out of order, for a reason that is true of it, and the
      verdict is indeterminate if and only if that entry is in order up to a key that cannot be read. */
  lemma WalkVerdict(c: Scanned)
    requires c.Aligned() && !Walk(c).ok
    ensures FirstBad(c, |c.entries|, Walk(c).at) && StopTold(c, Walk(c).at, Walk(c))
  {
    hide StopTold;
    WalkAccepts(c);
    WalkMeaning(c, |c.entries|);
    StopIsTold(c, |c.entries|);
  }

  // ---------- the writers' one-line view of the epoch ----------

  /** The epoch after the last line, from that line alone. */
  function TailEpoch(es: seq<Entry>): uint32 {
    if es == [] then FIRST_EPOCH
    else
      var e := es[|es| - 1];
      if e.op == OP_ROTATE && RotationTarget(e.target) != 0 then RotationTarget(e.target)
      else EffectiveEpoch(e.keyEpoch)
  }

  /** On a valid chain that ends in a chained entry, the last line alone gives the epoch of the walk. */
  lemma TailEpochIsWalkEpoch(c: Scanned)
    requires c.Aligned() && ChainValid(c, |c.entries|)
    requires c.entries != [] ==> IsChained(c.entries[|c.entries| - 1])
    ensures TailEpoch(c.entries) == EpochAt(c.entries, |c.entries|) == Walk(c).lastEpoch
  {
    WalkAccepts(c);
    if c.entries != [] {
      assert EntryOk(c, |c.entries| - 1);
    }
  }
}
