/** The byte strings that an audit HMAC key ever signs: the length-prefixed framing of an entry's metadata
    (with the key epoch appended from epoch 2 on), the NUL-separated text of an anchor, and, under the key
    of the first epoch, the framing of a capability URL.
  */
module Framing {
  import opened Text

  const FIRST_EPOCH: uint32 := 1

  /** The only input the entry signer accepts. */
  datatype SignInput = SignInput(
    title: string,
    target: string,
    time: string,
    dryRun: bool,
    prevHash: string,
    diffHash: Digest)

  /** The external checkpoint written beside the log. */
  datatype Anchor = Anchor(entryCount: int, lastHash: string, time: string, hmac: string, keyEpoch: uint32)

  // ---------- entry framing ----------

  function PutUint32(n: uint32): (r: string)
    ensures |r| == 4
  {
    [(n / 0x100_0000) as char, (n / 0x1_0000 % 256) as char, (n / 256 % 256) as char, (n % 256) as char]
  }

  function GetUint32(s: string): int
    requires |s| == 4
  {
    0x100_0000 * s[0] as int + 0x1_0000 * s[1] as int + 256 * s[2] as int + s[3] as int
  }

  lemma Uint32RoundTrip(n: uint32)
    ensures GetUint32(PutUint32(n)) == n
  {
    var hi := n / 0x1_0000;
    assert n / 256 / 256 == hi && hi / 256 == n / 0x100_0000;
    assert n == 256 * (n / 256) + n % 256;
    assert n / 256 == 256 * hi + n / 256 % 256;
    assert hi == 256 * (hi / 256) + hi % 256;
  }

  /** A field that outgrows the prefix is cut, by signer and verifier alike. */
  function Clamp(s: string): (r: string)
    ensures |r| <= MAX_UINT32
    ensures |s| <= MAX_UINT32 ==> r == s
  {
    if |s| > MAX_UINT32 then s[..MAX_UINT32] else s
  }

  function LenPrefixed(s: string): string {
    PutUint32(|Clamp(s)|) + Clamp(s)
  }

  function Flag(b: bool): string {
    if b then [1 as char] else [0 as char]
  }

  function SignBytes(x: SignInput): string {
    LenPrefixed(x.title) + (LenPrefixed(x.target) + (LenPrefixed(x.time) + (Flag(x.dryRun)
    + (LenPrefixed(x.prevHash) + x.diffHash))))
  }

  function EffectiveEpoch(declared: uint32): uint32 {
    if declared < FIRST_EPOCH then FIRST_EPOCH else declared
  }

  function SignBytesEpoch(x: SignInput, epoch: uint32): string {
    if epoch <= FIRST_EPOCH then SignBytes(x) else SignBytes(x) + PutUint32(epoch)
  }

  /** What survives of an input after the clamp: everything, for fields under 2^32 bytes. */
  function Clamped(x: SignInput): SignInput {
    SignInput(Clamp(x.title), Clamp(x.target), Clamp(x.time), x.dryRun, Clamp(x.prevHash), x.diffHash)
  }

  // ---------- the left inverse ----------

  function TakeField(s: string): Option<(string, string)> {
    if |s| < 4 then None
    else
      var n := GetUint32(s[..4]);
      if n > |s| - 4 then None else Some((s[4..4 + n], s[4 + n..]))
  }

  lemma TakeFieldInverts(s: string, rest: string)
    ensures TakeField(LenPrefixed(s) + rest) == Some((Clamp(s), rest))
  {
    var b := LenPrefixed(s) + rest;
    Uint32RoundTrip(|Clamp(s)|);
    assert b[..4] == PutUint32(|Clamp(s)|);
    assert b[4..4 + |Clamp(s)|] == Clamp(s);
    assert b[4 + |Clamp(s)|..] == rest;
  }

  function DecodeTail(title: string, target: string, time: string, s: string): Option<(SignInput, int)> {
    if s == "" then None
    else
      match TakeField(s[1..])
      case None => None
      case Some((prevHash, rest)) =>
        if |rest| < 32 || !AllBytes(rest[..32]) then None
        else
          var x := SignInput(title, target, time, s[0] == 1 as char, prevHash, rest[..32]);
          if |rest| == 32 then Some((x, 1))
          else if |rest| == 36 then Some((x, GetUint32(rest[32..])))
          else None
  }

  /** Reads a signed byte string back into its fields and its epoch. */
  function Decode(s: string): Option<(SignInput, int)> {
    match TakeField(s)
    case None => None
    case Some((title, s1)) =>
      match TakeField(s1)
      case None => None
      case Some((target, s2)) =>
        match TakeField(s2)
        case None => None
        case Some((time, s3)) => DecodeTail(title, target, time, s3)
  }

  function EpochSuffix(epoch: uint32): string {
    if epoch <= FIRST_EPOCH then "" else PutUint32(epoch)
  }

  lemma DecodeTailInverts(title: string, target: string, time: string, dryRun: bool, prevHash: string,
                          diffHash: Digest, epoch: uint32)
    ensures DecodeTail(title, target, time,
                       Flag(dryRun) + (LenPrefixed(prevHash) + (diffHash + EpochSuffix(epoch))))
         == Some((SignInput(title, target, time, dryRun, Clamp(prevHash), diffHash), EffectiveEpoch(epoch)))
  {
    var rest := diffHash + EpochSuffix(epoch);
    var s := Flag(dryRun) + (LenPrefixed(prevHash) + rest);
    TakeFieldInverts(prevHash, rest);
    assert s[1..] == LenPrefixed(prevHash) + rest;
    assert rest[..32] == diffHash;
    assert rest[32..] == EpochSuffix(epoch);
    if epoch > FIRST_EPOCH {
      Uint32RoundTrip(epoch);
    }
  }

  lemma Assoc(a: string, b: string, c: string)
    ensures a + (b + c) == a + b + c
  {
  }

  lemma SignBytesEpochNested(x: SignInput, epoch: uint32)
    ensures SignBytesEpoch(x, epoch)
         == LenPrefixed(x.title) + (LenPrefixed(x.target) + (LenPrefixed(x.time) + (Flag(x.dryRun)
            + (LenPrefixed(x.prevHash) + (x.diffHash + EpochSuffix(epoch))))))
  {
    var e := EpochSuffix(epoch);
    var t5 := LenPrefixed(x.prevHash) + x.diffHash;
    var t4 := Flag(x.dryRun) + t5;
    var t3 := LenPrefixed(x.time) + t4;
    var t2 := LenPrefixed(x.target) + t3;
    assert SignBytesEpoch(x, epoch) == SignBytes(x) + e;
    Assoc(LenPrefixed(x.title), t2, e);
    Assoc(LenPrefixed(x.target), t3, e);
    Assoc(LenPrefixed(x.time), t4, e);
    Assoc(Flag(x.dryRun), t5, e);
    Assoc(LenPrefixed(x.prevHash), x.diffHash, e);
  }

  /** The framing has a left inverse: every field comes back (cut at 2^32 - 1 bytes), and so does the
      epoch, with 0 and 1 identified. */
  lemma DecodeInverts(x: SignInput, epoch: uint32)
    ensures Decode(SignBytesEpoch(x, epoch)) == Some((Clamped(x), EffectiveEpoch(epoch)))
  {
    var s3 := Flag(x.dryRun) + (LenPrefixed(x.prevHash) + (x.diffHash + EpochSuffix(epoch)));
    var s2 := LenPrefixed(x.time) + s3;
    var s1 := LenPrefixed(x.target) + s2;
    SignBytesEpochNested(x, epoch);
    TakeFieldInverts(x.title, s1);
    TakeFieldInverts(x.target, s2);
    TakeFieldInverts(x.time, s3);
    DecodeTailInverts(Clamp(x.title), Clamp(x.target), Clamp(x.time), x.dryRun, x.prevHash, x.diffHash, epoch);
  }

  /** Two signing inputs give the same bytes exactly when all fields agree and the epochs agree, within
      one epoch or across two. */
  lemma FramingInjective(x: SignInput, e: uint32, y: SignInput, f: uint32)
    ensures SignBytesEpoch(x, e) == SignBytesEpoch(y, f)
       <==> Clamped(x) == Clamped(y) && EffectiveEpoch(e) == EffectiveEpoch(f)
  {
    DecodeInverts(x, e);
    DecodeInverts(y, f);
    if Clamped(x) == Clamped(y) && EffectiveEpoch(e) == EffectiveEpoch(f) {
      ClampIdempotent(x);
      ClampIdempotent(y);
    }
  }

  lemma ClampIdempotent(x: SignInput)
    ensures SignBytes(Clamped(x)) == SignBytes(x)
  {
  }

  // ---------- anchor framing ----------

  const NUL: string := "\0"

  function AnchorSuffix(epoch: uint32): string {
    if epoch > FIRST_EPOCH then NUL + Decimal(epoch) else ""
  }

  function AnchorSignBytes(a: Anchor): string {
    DecimalInt(a.entryCount) + (NUL + (a.lastHash + (NUL + (a.time + AnchorSuffix(a.keyEpoch)))))
  }

  predicate NulFree(s: string) {
    forall i | 0 <= i < |s| :: s[i] != '\0'
  }

  lemma SplitAtNul(a: string, x: string, b: string, y: string)
    requires NulFree(a) && NulFree(b)
    requires a + (NUL + x) == b + (NUL + y)
    ensures a == b && x == y
  {
    var s, t := a + (NUL + x), b + (NUL + y);
    assert s[|a|] == '\0' && t[|b|] == '\0';
    assert forall i | 0 <= i < |a| :: s[i] == a[i];
    assert forall i | 0 <= i < |b| :: t[i] == b[i];
    assert |a| == |b|;
    assert s[..|a|] == a && t[..|b|] == b;
    assert s[|a| + 1..] == x && t[|b| + 1..] == y;
  }

  /** The count and the hash are fixed by the signed bytes even when the time smuggles in a NUL. */
  lemma AnchorHeadFixed(a: Anchor, b: Anchor)
    requires NulFree(a.lastHash) && NulFree(b.lastHash)
    requires AnchorSignBytes(a) == AnchorSignBytes(b)
    ensures a.entryCount == b.entryCount && a.lastHash == b.lastHash
    ensures a.time + AnchorSuffix(a.keyEpoch) == b.time + AnchorSuffix(b.keyEpoch)
  {
    DecimalIntHasNoNul(a.entryCount);
    DecimalIntHasNoNul(b.entryCount);
    var ra, rb := a.time + AnchorSuffix(a.keyEpoch), b.time + AnchorSuffix(b.keyEpoch);
    SplitAtNul(DecimalInt(a.entryCount), a.lastHash + (NUL + ra), DecimalInt(b.entryCount), b.lastHash + (NUL + rb));
    SplitAtNul(a.lastHash, ra, b.lastHash, rb);
    DecimalIntInjective(a.entryCount, b.entryCount);
  }

  /** A first-epoch time that ends in the NUL and the epoch of a later one. */
  predicate Swallows(t: string, e: uint32, u: string, f: uint32) {
    e <= FIRST_EPOCH < f && t == u + AnchorSuffix(f)
  }

  /** Two texts that are equal are split the same way at their last NUL. */
  lemma SplitAtLastNul(a: string, x: string, b: string, y: string)
    requires NulFree(x) && NulFree(y) && a + (NUL + x) == b + (NUL + y)
    ensures a == b && x == y
  {
    LastNulNotLater(a, x, b, y);
    LastNulNotLater(b, y, a, x);
    var s := a + (NUL + x);
    assert s[..|a|] == a && s[|a| + 1..] == x;
    assert s[..|b|] == b && s[|b| + 1..] == y;
  }

  lemma LastNulNotLater(a: string, x: string, b: string, y: string)
    requires NulFree(x) && a + (NUL + x) == b + (NUL + y)
    ensures |b| <= |a|
  {
    var s := a + (NUL + x);
    assert forall i | |a| < i < |s| :: s[i] == x[i - |a| - 1];
    assert (b + (NUL + y))[|b|] == '\0';
  }

  lemma SuffixesAgree(t: string, e: uint32, u: string, f: uint32)
    requires e > FIRST_EPOCH && f > FIRST_EPOCH && t + AnchorSuffix(e) == u + AnchorSuffix(f)
    ensures t == u && e == f
  {
    hide Decimal;
    SplitAtLastNul(t, Decimal(e), u, Decimal(f));
    DecimalRoundTrip(e);
    DecimalRoundTrip(f);
  }

  lemma AnchorTails(t: string, e: uint32, u: string, f: uint32)
    ensures t + AnchorSuffix(e) == u + AnchorSuffix(f)
       <==> (t == u && EffectiveEpoch(e) == EffectiveEpoch(f)) || Swallows(t, e, u, f) || Swallows(u, f, t, e)
  {
    assert t + "" == t && u + "" == u;
    if e > FIRST_EPOCH && f > FIRST_EPOCH && t + AnchorSuffix(e) == u + AnchorSuffix(f) {
      SuffixesAgree(t, e, u, f);
    }
    if e > FIRST_EPOCH && t == u {
      assert |t + AnchorSuffix(e)| > |t|;
    }
    if f > FIRST_EPOCH && t == u {
      assert |u + AnchorSuffix(f)| > |u|;
    }
  }

  lemma NothingSwallowed(t: string, e: uint32, u: string, f: uint32)
    requires NulFree(t)
    ensures !Swallows(t, e, u, f)
  {
    if f > FIRST_EPOCH {
      assert (u + AnchorSuffix(f))[|u|] == '\0';
    }
  }

  /** Two anchors with NUL-free hashes share their signed bytes exactly when they agree on count and hash and
      either on time and epoch too, or one is of the first epoch and its time has swallowed the other's NUL
      and epoch. */
  lemma AnchorCollisions(a: Anchor, b: Anchor)
    requires NulFree(a.lastHash) && NulFree(b.lastHash)
    ensures AnchorSignBytes(a) == AnchorSignBytes(b)
       <==> a.entryCount == b.entryCount && a.lastHash == b.lastHash
            && ((a.time == b.time && EffectiveEpoch(a.keyEpoch) == EffectiveEpoch(b.keyEpoch))
                || Swallows(a.time, a.keyEpoch, b.time, b.keyEpoch) || Swallows(b.time, b.keyEpoch, a.time, a.keyEpoch))
  {
    AnchorTails(a.time, a.keyEpoch, b.time, b.keyEpoch);
    if AnchorSignBytes(a) == AnchorSignBytes(b) {
      AnchorHeadFixed(a, b);
    }
  }

  /** With NUL-free hashes and times, two anchors share their signed bytes exactly when they agree on
      count, hash, time and epoch. */
  lemma AnchorFramingInjective(a: Anchor, b: Anchor)
    requires NulFree(a.lastHash) && NulFree(a.time) && NulFree(b.lastHash) && NulFree(b.time)
    ensures AnchorSignBytes(a) == AnchorSignBytes(b)
       <==> a.entryCount == b.entryCount && a.lastHash == b.lastHash && a.time == b.time
            && EffectiveEpoch(a.keyEpoch) == EffectiveEpoch(b.keyEpoch)
  {
    AnchorCollisions(a, b);
    NothingSwallowed(a.time, a.keyEpoch, b.time, b.keyEpoch);
    NothingSwallowed(b.time, b.keyEpoch, a.time, a.keyEpoch);
  }

  /** Without the NUL restriction the epoch is not fixed: an epoch-2 anchor and an epoch-1 anchor whose
      time ends in NUL "2" are signed as the same bytes. */
  lemma AnchorNulCollision()
    ensures AnchorSignBytes(Anchor(1, "h", "t", "", 2)) == AnchorSignBytes(Anchor(1, "h", "t\02", "", 1))
  {
    assert Decimal(2) == "2";
    assert "t" + (NUL + "2") == "t\02" + "";
  }

  /** An operation name this long cannot come out of a log line, which the scanner caps at 1 MiB. */
  const TITLE_LIMIT: nat := 0x2D00_0000

  /** No signature made for an anchor can be replayed as an entry signature, or the other way round:
      an anchor starts with a digit or a minus sign, an entry with the top byte of a short length. */
  lemma DomainsSeparate(a: Anchor, x: SignInput, epoch: uint32)
    requires |x.title| < TITLE_LIMIT
    ensures AnchorSignBytes(a) != SignBytesEpoch(x, epoch)
  {
    DecimalIntHasNoNul(a.entryCount);
    assert AnchorSignBytes(a)[0] == DecimalInt(a.entryCount)[0];
    assert SignBytesEpoch(x, epoch)[0] == PutUint32(|x.title|)[0];
    assert (|x.title| / 0x100_0000) < 0x2D;
  }

  // ---------- capability URLs ----------

  /** What the signature in an approve or deny URL covers. */
  datatype Capability = Capability(requestId: string, action: string, closure: Digest)

  predicate ShortCapability(c: Capability) {
    |c.requestId| <= MAX_UINT32 && |c.action| <= MAX_UINT32
  }

  function PutUint64(n: nat): (r: string)
    ensures |r| == 8
  {
    PutUint32(n / 0x1_0000_0000 % 0x1_0000_0000) + PutUint32(n % 0x1_0000_0000)
  }

  function CapabilityBytes(c: Capability): string {
    PutUint64(|c.requestId|) + (c.requestId + (PutUint64(|c.action|) + (c.action + c.closure)))
  }

  lemma ShortUint64(n: uint32)
    ensures PutUint64(n) == PutUint32(0) + PutUint32(n)
  {
    assert n / 0x1_0000_0000 == 0 && n % 0x1_0000_0000 == n;
  }

  /** An eight-byte length of a short field reads as an empty entry field and then the field itself. */
  lemma WideField(s: string, rest: string)
    requires |s| <= MAX_UINT32
    ensures PutUint64(|s|) + (s + rest) == LenPrefixed("") + (LenPrefixed(s) + rest)
  {
    ShortUint64(|s|);
    hide PutUint32, PutUint64;
    assert LenPrefixed("") == PutUint32(0);
    Assoc(PutUint32(0), PutUint32(|s|), s + rest);
    Assoc(PutUint32(|s|), s, rest);
  }

  lemma CapabilityAsFields(c: Capability)
    requires ShortCapability(c)
    ensures CapabilityBytes(c)
         == LenPrefixed("") + (LenPrefixed(c.requestId) + (LenPrefixed("") + (LenPrefixed(c.action) + c.closure)))
  {
    hide PutUint64, LenPrefixed;
    WideField(c.action, c.closure);
    WideField(c.requestId, PutUint64(|c.action|) + (c.action + c.closure));
  }

  /** No capability signature can be replayed as an entry signature: read as an entry it has no time. */
  lemma CapabilityIsNoEntry(c: Capability, x: SignInput, epoch: uint32)
    requires ShortCapability(c) && x.time != ""
    ensures CapabilityBytes(c) != SignBytesEpoch(x, epoch)
  {
    var c2 := LenPrefixed("") + (LenPrefixed(c.action) + c.closure);
    var c1 := LenPrefixed(c.requestId) + c2;
    CapabilityAsFields(c);
    TakeFieldInverts("", c1);
    TakeFieldInverts(c.requestId, c2);
    TakeFieldInverts("", LenPrefixed(c.action) + c.closure);
    var x3 := Flag(x.dryRun) + (LenPrefixed(x.prevHash) + (x.diffHash + EpochSuffix(epoch)));
    var x2 := LenPrefixed(x.time) + x3;
    var x1 := LenPrefixed(x.target) + x2;
    SignBytesEpochNested(x, epoch);
    TakeFieldInverts(x.title, x1);
    TakeFieldInverts(x.target, x2);
    TakeFieldInverts(x.time, x3);
    assert |Clamp(x.time)| > 0;
  }

  /** Nor as an anchor's: it starts with a zero byte. */
  lemma CapabilityIsNoAnchor(c: Capability, a: Anchor)
    requires ShortCapability(c)
    ensures CapabilityBytes(c) != AnchorSignBytes(a)
  {
    DecimalIntHasNoNul(a.entryCount);
    CapabilityAsFields(c);
    assert AnchorSignBytes(a)[0] == DecimalInt(a.entryCount)[0];
    hide CapabilityBytes, AnchorSignBytes, Decimal;
    assert LenPrefixed("")[0] == 0 as char;
  }
}
