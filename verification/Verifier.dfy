/** The whole verifier: scan, chain walk, epoch pointer, anchor and counter, and the exit code that
    `audit verify` derives from its verdict.
  */
module Verifier {
  import opened Text
  import opened Framing
  import opened Chain

  // ---------- scanning ----------

  function ParseLine(env: Env, line: string): Option<Entry> {
    if |line| >= LINE_LIMIT then None else env.parse(line)
  }

  /** The entries of a log, or nothing when some line is over-long or does not parse. */
  function ParseAll(env: Env, lines: seq<string>): (r: Option<seq<Entry>>)
    ensures r.Some? ==> |r.value| == |lines|
  {
    if lines == [] then Some([])
    else
      match (ParseAll(env, lines[..|lines| - 1]), ParseLine(env, lines[|lines| - 1]))
      case (Some(es), Some(e)) => Some(es + [e])
      case _ => None
  }

  method Scan(env: Env, lines: seq<string>) returns (r: Option<seq<Entry>>)
    ensures r == ParseAll(env, lines)
  {
    var entries := [];
    for i := 0 to |lines|
      invariant ParseAll(env, lines[..i]) == Some(entries)
    {
      assert lines[..i + 1][..i] == lines[..i];
      var e := ParseLine(env, lines[i]);
      if e.None? {
        UnparsedForGood(env, lines, i + 1, |lines|);
        assert lines[..|lines|] == lines;
        return None;
      }
      entries := entries + [e.value];
    }
    assert lines[..|lines|] == lines;
    r := Some(entries);
  }

  lemma {:induction false} UnparsedForGood(env: Env, lines: seq<string>, i: nat, n: nat)
    requires i <= n <= |lines| && ParseAll(env, lines[..i]).None?
    ensures ParseAll(env, lines[..n]).None?
    decreases n
  {
    if i < n {
      UnparsedForGood(env, lines, i, n - 1);
      assert lines[..n][..n - 1] == lines[..n - 1];
    }
  }

  lemma {:induction false} ParseAllAt(env: Env, lines: seq<string>, i: nat)
    requires ParseAll(env, lines).Some? && i < |lines|
    ensures env.parse(lines[i]) == Some(ParseAll(env, lines).value[i])
  {
    if i < |lines| - 1 {
      ParseAllAt(env, lines[..|lines| - 1], i);
    }
  }

  // ---------- anchor and counter ----------

  /** A verdict, or the error return (an unreadable file, an unparsable line, an unusable keychain). */
  datatype Outcome = Done(r: VerifyResult) | Failed

  /** The anchor's own epoch selects the key; a key that cannot be read is an error, not a verdict. */
  function VerifyAnchor(env: Env, ring: Option<Keyring>, a: Anchor): Option<bool> {
    match FetchKey(ring, EffectiveEpoch(a.keyEpoch))
    case Value(key) => Some(HexDecode(a.hmac) == Some(env.mac(key, AnchorSignBytes(a))))
    case Absent => None
    case Unavailable => None
  }

  predicate ExcessHasUnsigned(es: seq<Entry>, n: int) {
    exists i | 0 <= i < |es| && n <= i :: IsChained(es[i]) && es[i].sig == ""
  }

  method FindUnsignedExcess(es: seq<Entry>, n: int) returns (found: bool)
    ensures found == ExcessHasUnsigned(es, n)
  {
    var i := if n < 0 then 0 else n;
    while i < |es|
      invariant 0 <= i && n <= i
      invariant forall j | 0 <= j < |es| && n <= j < i :: !(IsChained(es[j]) && es[j].sig == "")
    {
      if es[i].prevHash != "" && es[i].sig == "" {
        return true;
      }
      i := i + 1;
    }
    found := false;
  }

  function VerifyCounter(ring: Option<Keyring>, es: seq<Entry>, r: VerifyResult): VerifyResult {
    if ring.None? then r.(counter := Unknown)
    else match ReadCounter(ring.value)
         case Unavailable => r.(counter := Unknown)
         case Absent => r.(counter := Unknown)
         case Value(n) =>
           if n > |es| then r.(truncated := true, counter := Mismatch, reason := CounterAhead)
           else if n < |es| then
             r.(counter := Unknown, reason := if ExcessHasUnsigned(es, n) then CounterLagUnsigned else CounterLag)
           else r.(counter := Verified)
  }

  function CheckAnchor(c: Scanned, anchor: Read<Anchor>, key: Option<string>, r: VerifyResult): Outcome
    requires c.Aligned()
  {
    match anchor
    case Unavailable => Failed
    case Absent =>
      if key.Some? then Done(Bad(-1, AnchorMissing, false))
      else Done(VerifyCounter(c.ring, c.entries, r))
    case Value(a) =>
      if key.None? then Done(r.(sigsSkipped := r.sigsSkipped + 1, counter := Unknown))
      else
        match VerifyAnchor(c.env, c.ring, a)
        case None => Failed
        case Some(genuine) =>
          if !genuine then Done(Bad(-1, AnchorForged, false))
          else
            var r1 := if a.entryCount > |c.entries| then r.(truncated := true) else r;
            if 0 < a.entryCount <= |c.lines| && a.lastHash != HashOf(c.env, c.lines[a.entryCount - 1])
            then Done(Bad(a.entryCount - 1, HistoryRewrite, false))
            else Done(VerifyCounter(c.ring, c.entries, r1))
  }

  // ---------- the verdict ----------

  datatype CurrentKey = NoKeychain | Unreadable | Lost(pointer: uint32) | Current(pointer: uint32, key: Option<string>)

  /** The pointer and its key: absent at epoch 1 means no chain was ever signed, absent later means lost. */
  function FetchCurrent(ring: Option<Keyring>): CurrentKey {
    if ring.None? then NoKeychain
    else match ReadPointer(ring.value)
         case Unavailable => Unreadable
         case Absent => Unreadable
         case Value(p) =>
           match FetchKey(ring, p)
           case Unavailable => Unreadable
           case Absent => if p > FIRST_EPOCH then Lost(p) else Current(p, None)
           case Value(key) => Current(p, Some(key))
  }

  /** The checks after the walk: the pointer must not be ahead of the chain, then anchor and counter. */
  function AfterWalk(c: Scanned, anchor: Read<Anchor>, current: CurrentKey, r: VerifyResult): Outcome
    requires c.Aligned()
  {
    if !r.ok then Done(r)
    else if current.Current? && current.key.Some? && current.pointer > r.lastEpoch then
      Done(r.(ok := false, truncated := true, reason := BoundaryTruncation))
    else CheckAnchor(c, anchor, if current.Current? then current.key else None, r)
  }

  function Verify(env: Env, lines: seq<string>, anchor: Read<Anchor>, ring: Option<Keyring>): Outcome {
    match ParseAll(env, lines)
    case None => Failed
    case Some(es) =>
      var current := FetchCurrent(ring);
      if current.Unreadable? then Failed
      else if current.Lost? then Done(Bad(-1, PointerKeyMissing, true))
      else
        var c := Scanned(env, ring, lines, es, current.Current? && current.key.Some?);
        AfterWalk(c, anchor, current, Walk(c))
  }

  /** The verifier as it runs, with its scanning and walking loops. */
  method RunVerify(env: Env, lines: seq<string>, anchor: Read<Anchor>, ring: Option<Keyring>) returns (outcome: Outcome)
    ensures outcome == Verify(env, lines, anchor, ring)
  {
    var es := Scan(env, lines);
    if es.None? {
      return Failed;
    }
    var current := FetchCurrent(ring);
    match current {
      case Unreadable => return Failed;
      case Lost(_) => return Done(Bad(-1, PointerKeyMissing, true));
      case _ =>
    }
    var c := Scanned(env, ring, lines, es.value, current.Current? && current.key.Some?);
    var result := WalkChain(c);
    outcome := AfterWalk(c, anchor, current, result);
  }

  predicate Passes(v: Outcome) {
    v.Done? && v.r.ok && !v.r.truncated
  }

  /** Fail-closed, but not an accusation of tampering. */
  predicate Unverifiable(v: Outcome) {
    v.Done? && v.r.indeterminate && !v.r.ok && !v.r.truncated
  }

  /** The exit status of `audit verify`: 2 is reserved for a broken or truncated chain. */
  function ExitCode(v: Outcome, hasKeychain: bool): nat {
    match v
    case Failed => 1
    case Done(r) =>
      if r.indeterminate then 1
      else if !r.ok || r.truncated then 2
      else if !hasKeychain || r.counter == Unknown then 1
      else 0
  }

  // ---------- what a pass means ----------

  /** The scanned log that a passing `Verify` walked. */
  function ScannedBy(env: Env, lines: seq<string>, ring: Option<Keyring>): (c: Scanned)
    requires ParseAll(env, lines).Some?
    ensures c.Aligned()
  {
    var current := FetchCurrent(ring);
    Scanned(env, ring, lines, ParseAll(env, lines).value, current.Current? && current.key.Some?)
  }

  predicate SealedUnder(env: Env, key: string, a: Anchor) {
    HexDecode(a.hmac) == Some(env.mac(key, AnchorSignBytes(a)))
  }

  /** The anchor carries the code of its own text under the key of its own epoch. */
  predicate GenuineAnchor(env: Env, ring: Option<Keyring>, a: Anchor) {
    var key := FetchKey(ring, EffectiveEpoch(a.keyEpoch));
    key.Value? && SealedUnder(env, key.v, a)
  }

  /** The declarative reading of a pass under a current key: a valid chain that reaches the pointer's
      epoch, under a genuine anchor whose prefix is intact, at least as long as anchor and counter say. */
  ghost predicate Sound(c: Scanned, pointer: uint32, anchor: Read<Anchor>)
    requires c.Aligned() && c.ring.Some?
  {
    && ChainValid(c, |c.entries|)
    && pointer <= EpochAt(c.entries, |c.entries|)
    && anchor.Value?
    && GenuineAnchor(c.env, c.ring, anchor.v)
    && anchor.v.entryCount <= |c.lines|
    && (anchor.v.entryCount > 0 ==> anchor.v.lastHash == HashOf(c.env, c.lines[anchor.v.entryCount - 1]))
    && (ReadCounter(c.ring.value).Value? ==> ReadCounter(c.ring.value).v <= |c.lines|)
  }

  /** With a key in force, `Verify` passes exactly the logs that are sound in this sense. */
  lemma PassMeansSound(env: Env, lines: seq<string>, anchor: Read<Anchor>, ring: Keyring)
    requires FetchCurrent(Some(ring)).Current? && FetchCurrent(Some(ring)).key.Some?
    ensures Passes(Verify(env, lines, anchor, Some(ring)))
       <==> ParseAll(env, lines).Some?
            && Sound(ScannedBy(env, lines, Some(ring)), FetchCurrent(Some(ring)).pointer, anchor)
  {
    if ParseAll(env, lines).Some? {
      WalkAccepts(ScannedBy(env, lines, Some(ring)));
    }
  }

  // ---------- what the other verdicts mean ----------

  /** The anchor file can be read, and so can the key its seal needs. */
  predicate AnchorAnswers(c: Scanned, anchor: Read<Anchor>) {
    && !anchor.Unavailable?
    && (anchor.Value? ==> FetchKey(c.ring, EffectiveEpoch(anchor.v.keyEpoch)).Value?)
  }

  /** The first entry out of order is so for a reason other than a key that cannot be read. */
  ghost predicate Broken(c: Scanned)
    requires c.Aligned()
  {
    exists at :: FirstBad(c, |c.entries|, at) && !KeyUnread(c, at)
  }

  lemma FirstBadIsUnique(c: Scanned, n: nat, a: int, b: int)
    requires c.Aligned() && n <= |c.entries| && FirstBad(c, n, a) && FirstBad(c, n, b)
    ensures a == b
  {
  }

  /** The walk's own verdict, without its order of checks. */
  lemma WalkExit(c: Scanned)
    requires c.Aligned()
    ensures Walk(c).ok <==> ChainValid(c, |c.entries|)
    ensures !Walk(c).ok ==> !Walk(c).truncated && (Walk(c).indeterminate <==> !Broken(c))
    ensures Walk(c).ok ==> !Walk(c).truncated && !Walk(c).indeterminate && Walk(c).lastEpoch == EpochAt(c.entries, |c.entries|)
  {
    hide Walk, EntryOk, FirstBad, KeyUnread;
    WalkAccepts(c);
    if !Walk(c).ok {
      WalkVerdict(c);
      forall at | FirstBad(c, |c.entries|, at) ensures at == Walk(c).at {
        FirstBadIsUnique(c, |c.entries|, at, Walk(c).at);
      }
    }
  }

  /** With a key in force, `audit verify` reports tampering (exit 2) exactly for the logs that parse and are
      broken, or end before the pointer's epoch, or are unsound under an anchor that can be checked. */
  lemma ExitTwoIff(env: Env, lines: seq<string>, anchor: Read<Anchor>, ring: Keyring)
    requires FetchCurrent(Some(ring)).Current? && FetchCurrent(Some(ring)).key.Some?
    ensures ExitCode(Verify(env, lines, anchor, Some(ring)), true) == 2
       <==> ParseAll(env, lines).Some?
            && var c := ScannedBy(env, lines, Some(ring));
               var pointer := FetchCurrent(Some(ring)).pointer;
               if ChainValid(c, |c.entries|)
               then pointer > EpochAt(c.entries, |c.entries|) || (AnchorAnswers(c, anchor) && !Sound(c, pointer, anchor))
               else Broken(c)
  {
    hide Walk, Chain.ChainValid, Broken, AnchorSignBytes, HexDecode, HashOf, ExcessHasUnsigned, ParseAll;
    if ParseAll(env, lines).Some? {
      WalkExit(ScannedBy(env, lines, Some(ring)));
    }
  }

  /** In particular, when every key the verifier turns to can be read, a log that parses exits 2 if and only if it
      is not sound: no tampering passes for an unverifiable range. */
  lemma TamperingExitsTwo(env: Env, lines: seq<string>, anchor: Read<Anchor>, ring: Keyring)
    requires FetchCurrent(Some(ring)).Current? && FetchCurrent(Some(ring)).key.Some? && ParseAll(env, lines).Some?
    requires var c := ScannedBy(env, lines, Some(ring));
             AnchorAnswers(c, anchor) && forall i | 0 <= i < |c.entries| :: !KeyUnread(c, i)
    ensures ExitCode(Verify(env, lines, anchor, Some(ring)), true) == 2
       <==> !Sound(ScannedBy(env, lines, Some(ring)), FetchCurrent(Some(ring)).pointer, anchor)
  {
    hide Walk, EntryOk, KeyUnread, Verify, ExitCode, ScannedBy;
    var c := ScannedBy(env, lines, Some(ring));
    ExitTwoIff(env, lines, anchor, ring);
    WalkAccepts(c);
    if !ChainValid(c, |c.entries|) {
      assert FirstBad(c, |c.entries|, Walk(c).at);
    }
  }

  /** A clean exit means exactly a sound log that the keychain counter agrees with. */
  lemma ExitZeroIff(env: Env, lines: seq<string>, anchor: Read<Anchor>, ring: Keyring)
    requires FetchCurrent(Some(ring)).Current? && FetchCurrent(Some(ring)).key.Some?
    ensures ExitCode(Verify(env, lines, anchor, Some(ring)), true) == 0
       <==> ParseAll(env, lines).Some?
            && Sound(ScannedBy(env, lines, Some(ring)), FetchCurrent(Some(ring)).pointer, anchor)
            && ReadCounter(ring) == Value(|lines|)
  {
    hide Walk, Chain.ChainValid, Broken, AnchorSignBytes, HexDecode, HashOf, ExcessHasUnsigned, ParseAll;
    if ParseAll(env, lines).Some? {
      WalkExit(ScannedBy(env, lines, Some(ring)));
    }
  }

  /** A verdict is indeterminate exactly when the pointer's own key is lost, or the first entry out of order is so
      only for a key that cannot be read. */
  lemma IndeterminateIff(env: Env, lines: seq<string>, anchor: Read<Anchor>, ring: Option<Keyring>)
    ensures var v := Verify(env, lines, anchor, ring);
            v.Done? && v.r.indeterminate
            <==> ParseAll(env, lines).Some? && !FetchCurrent(ring).Unreadable?
                 && (FetchCurrent(ring).Lost?
                     || var c := ScannedBy(env, lines, ring); !ChainValid(c, |c.entries|) && !Broken(c))
  {
    hide Walk, Chain.ChainValid, Broken;
    if ParseAll(env, lines).Some? {
      WalkExit(ScannedBy(env, lines, ring));
    }
  }

  /** Without a key in force nothing is authenticated: only a broken chain, or a counter ahead of a log that has no
      anchor, exits 2. */
  lemma KeylessExitTwoIff(env: Env, lines: seq<string>, anchor: Read<Anchor>, ring: Option<Keyring>)
    requires FetchCurrent(ring).NoKeychain? || (FetchCurrent(ring).Current? && FetchCurrent(ring).key.None?)
    ensures ExitCode(Verify(env, lines, anchor, ring), ring.Some?) == 2
       <==> ParseAll(env, lines).Some?
            && var c := ScannedBy(env, lines, ring);
               !ChainValid(c, |c.entries|)
               || (anchor.Absent? && ring.Some? && ReadCounter(ring.value).Value? && ReadCounter(ring.value).v > |lines|)
  {
    hide Walk, Chain.ChainValid, Broken, AnchorSignBytes, HexDecode, HashOf, ExcessHasUnsigned, ParseAll;
    if ParseAll(env, lines).Some? {
      var c := ScannedBy(env, lines, ring);
      WalkExit(c);
      if !ChainValid(c, |c.entries|) {
        NothingUnreadWithoutKeys(c);
      }
    }
  }

  lemma NothingUnreadWithoutKeys(c: Scanned)
    requires c.Aligned() && !c.hasKeys && !ChainValid(c, |c.entries|)
    ensures Broken(c)
  {
    hide Walk, EntryOk;
    WalkAccepts(c);
    var at := Walk(c).at;
    assert FirstBad(c, |c.entries|, at) && !KeyUnread(c, at);
  }

  /** The anchored line, if the log reaches it, is the one the anchor recorded. */
  predicate LineAgrees(env: Env, lines: seq<string>, a: Anchor) {
    0 < a.entryCount <= |lines| ==> a.lastHash == HashOf(env, lines[a.entryCount - 1])
  }

  /** The truncation flag is raised exactly when a valid chain stops short of the pointer's epoch, or, under a
      genuine anchor whose recorded line is still there or beyond the end, of the anchored or the counted length. */
  lemma TruncationIff(env: Env, lines: seq<string>, anchor: Read<Anchor>, ring: Keyring)
    requires FetchCurrent(Some(ring)).Current? && FetchCurrent(Some(ring)).key.Some?
    ensures var v := Verify(env, lines, anchor, Some(ring));
            v.Done? && v.r.truncated
            <==> ParseAll(env, lines).Some?
                 && var c := ScannedBy(env, lines, Some(ring));
                    && ChainValid(c, |c.entries|)
                    && (FetchCurrent(Some(ring)).pointer > EpochAt(c.entries, |c.entries|)
                        || (anchor.Value? && GenuineAnchor(env, Some(ring), anchor.v) && LineAgrees(env, lines, anchor.v)
                            && (anchor.v.entryCount > |lines| || (ReadCounter(ring).Value? && ReadCounter(ring).v > |lines|))))
  {
    hide Walk, Chain.ChainValid, Broken, AnchorSignBytes, HexDecode, HashOf, ExcessHasUnsigned, ParseAll;
    if ParseAll(env, lines).Some? {
      WalkExit(ScannedBy(env, lines, Some(ring)));
    }
  }

  /** Without a key in force the exit is clean only for a valid chain that never had an anchor and whose length the
      keychain counter confirms; without a keychain it never is. */
  lemma KeylessExitZeroIff(env: Env, lines: seq<string>, anchor: Read<Anchor>, ring: Option<Keyring>)
    requires FetchCurrent(ring).NoKeychain? || (FetchCurrent(ring).Current? && FetchCurrent(ring).key.None?)
    ensures ExitCode(Verify(env, lines, anchor, ring), ring.Some?) == 0
       <==> ParseAll(env, lines).Some? && ring.Some? && anchor.Absent? && ReadCounter(ring.value) == Value(|lines|)
            && var c := ScannedBy(env, lines, ring); ChainValid(c, |c.entries|)
  {
    hide Walk, Chain.ChainValid, Broken, AnchorSignBytes, HexDecode, HashOf, ExcessHasUnsigned, ParseAll;
    if ParseAll(env, lines).Some? {
      WalkExit(ScannedBy(env, lines, ring));
    }
  }

  /** Which key is in force, from what the keychain holds and refuses to answer. */
  lemma CurrentMeaning(ring: Keyring)
    ensures var kc, down := ring.kc, ring.down;
            var p := if kc.pointer.Some? then kc.pointer.value else 1;
            var unread := PointerAccount in down || p == 0 || KeyAccount(p) in down;
            var current := FetchCurrent(Some(ring));
            && (current.Unreadable? <==> unread)
            && (current.Lost? <==> !unread && p > 1 && p !in kc.keys)
            && (current.Current? ==> current.pointer == p && current.key == if p in kc.keys then Some(kc.keys[p]) else None)
    ensures FetchCurrent(Some(ring)) != NoKeychain && FetchCurrent(None) == NoKeychain
  {
  }

  /** A log parses exactly when every line is short enough and parses, and then into those entries in order. */
  lemma {:induction false} ParseAllIff(env: Env, lines: seq<string>)
    ensures ParseAll(env, lines).Some? <==> forall i | 0 <= i < |lines| :: |lines[i]| < LINE_LIMIT && env.parse(lines[i]).Some?
    ensures ParseAll(env, lines).Some? ==> forall i | 0 <= i < |lines| :: Some(ParseAll(env, lines).value[i]) == env.parse(lines[i])
  {
    if lines != [] {
      var k := |lines| - 1;
      assert forall i | 0 <= i < k :: lines[..k][i] == lines[i];
      ParseAllIff(env, lines[..k]);
    }
  }

  /** What a pass says of a counter that lags: whether some entry beyond it is chained and unsigned. */
  lemma LagIsExplained(env: Env, lines: seq<string>, anchor: Read<Anchor>, ring: Keyring)
    requires FetchCurrent(Some(ring)).Current? && FetchCurrent(Some(ring)).key.Some?
    requires Passes(Verify(env, lines, anchor, Some(ring)))
    ensures var r := Verify(env, lines, anchor, Some(ring)).r;
            var es := ParseAll(env, lines).value;
            && (r.counter == Verified <==> ReadCounter(ring) == Value(|lines|))
            && (r.reason == CounterLagUnsigned <==>
                  ReadCounter(ring).Value? && ReadCounter(ring).v < |es|
                  && exists i | 0 <= i < |es| && ReadCounter(ring).v <= i :: IsChained(es[i]) && es[i].sig == "")
  {
    hide Walk, Chain.ChainValid, Broken;
    WalkExit(ScannedBy(env, lines, Some(ring)));
    WalkCleanReason(ScannedBy(env, lines, Some(ring)));
  }

  lemma WalkCleanReason(c: Scanned)
    requires c.Aligned() && Walk(c).ok
    ensures Walk(c).reason == NoReason && Walk(c).counter == Unchecked
  {
    WalkAccepts(c);
  }
}
