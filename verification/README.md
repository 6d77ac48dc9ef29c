# Verified models of abysslink

abysslink keeps a tamper-evident audit log: an append-only, hash-chained, HMAC-signed file with key
epochs, an external signed anchor, a keychain counter, a crash-resumable key rotation and a separate
verifier. Writers and verifier are different code that must agree byte for byte, the state is spread over
four stores (log, anchor file, keychain, each writer's cached key), and a process can die between any two
writes. This project models that log, the uninstaller that is computed from it, the approval registry with
the escalation ladder it drives, the loop detector, and the event follower, and proves what each of them is
for. `dafny verify dfyconfig.toml` checks everything.

## How it is organised

| files | what they hold |
|---|---|
| `Text`, `Framing` | hexadecimal and decimal text; the byte strings an audit key ever signs |
| `Chain`, `Verifier` | the log, the chain walk and its meaning, the anchor and counter checks, the verdict and the exit code |
| `Writers`, `Invariant`, `Machine` | every store write of every critical section; what each keeps; many writers with crashes between any two store writes |
| `Guarantees`, `TamperEvidence`, `Rotation`, `Ledger`, `Progress` | the main theorems: no false alarm, soundness, rotation, the counter's books, and what a section achieves or how far it gets |
| `Scenario` | concrete runs: a first append that meets what the theorems assume, and the runs on which the code fails |
| `FileWrites`, `SignedWriter`, `PlainWriter` | one audited file write; the two writers as objects updating shared stores and files in place, each method tied to the store writes above |
| `Sidecars`, `ReversePlan`, `Reverse`, `Planning`, `SecondReverse`, `RoundTrip` | backup names, planning, reversing, what a plan says, planning again, write-then-reverse |
| `Approve`, `ApproveRace`, `Ladder`, `LoopDetector` | approval requests as objects, the same requests raced step by step, the stop/resume/kill ladder, the ring buffer |
| `Follow` | the watermark follower |

Conventions. A Go string is a sequence of bytes, modelled as a `string` whose characters stand for bytes.
SHA-256, HMAC-SHA-256 (section 2 of RFC 2104), JSON encoding and the seconds form of a time (section 5.6 of
RFC 3339) are functions carried in `Env`; nothing is built into them except the size of a digest and that a
time has some text. Where a
theorem needs more, it asks for it about the lines at hand only: no two of them collide, and every signature
on them that checks out was issued by a writer (`NoCollision`, `EntriesUnforged`, `AnchorUnforged`).
A failing store write, a refused keychain read or a crash is a choice of the environment: in `Machine` it is
an event, in the objects it is a `budget` of store writes that succeed and a flag for reads that do.

## Where the code promises more than it gives

Each of these is proved as an exact boundary, and the ones that fail on a run of the program have a lemma with
such a run.

- The chained-but-unsigned fallback of the plain writer declares no epoch, so it is safe exactly while the
  log is in its first epoch (`UnsignedAppendSafeIffFirstEpoch`, `PlainAppendIsSafe`). After a rotation it makes
  `Verify` report a broken chain on an untampered log (`FallbackReadsAsTampering`, `FallbackAfterRotation`).
- Between the creation of the first key and the first anchor, `Verify` rejects an honest log; nowhere else
  (`NoFalseAlarm`). One crash reaches that window, and `audit verify` then exits with 2
  (`CrashBeforeFirstAnchor`).
- The counter is documented to equal the entry count. It is at most the entry count, and short of it by
  exactly the entries some step left uncounted (`CounterNeverAhead`).
- Anchors share their signed bytes across epochs exactly when a first-epoch time has swallowed the NUL and the
  epoch of another (`AnchorCollisions`, `AnchorNulCollision`).
- A rotation spares every key the log has reached exactly when the pointer is short of the last 32-bit epoch,
  where the next epoch wraps to 0, whose account is the first epoch's (`RotationSparesKeysIffNoWrap`).
- A file that abysslink created and then wrote again has a backup of abysslink's own first version, and
  an uninstall brings that version back (`DisplacedMeaning`).
- The log outlives an uninstall. A signed target that is there when a run begins always comes back; a plain
  one, or one the run creates, does exactly when the log has not closed the book on it before
  (`OneWriterComesBackIff`). So a plain reinstall after an uninstall is never undone (`PlainReinstallStays`).
- Recording a restore in the log is best effort. When the record of a restore that only the directory
  listing justified is lost, a second uninstall deletes the file exactly when the backup equals the last write
  (`SecondPlanIdle`, `SecondUninstallDeletes`).
- A target the user has edited is kept exactly when no restore that goes through clears it away as a backup of
  another target (`DriftSurvivesUnlessCleared`, `DriftedFileIsCleared`).
- The follower's "no silent loss" holds exactly when no poll shows, for the first time, an event older than
  one an earlier poll showed (`CompleteIffNothingSurfacesLate`, `LateEventIsLost`).
- The ladder takes a request that is no longer in the registry for a deny: pruning an open ladder request
  kills the process group without anybody having denied it (`KillsIffDeniedInTime`).

A remark without a theorem of its own: `openApproveReq` handles a refused registration, but `Registry.Open`
refuses only critical requests and the ladder asks for a sensitive one without a name, so that branch is dead.

## Model

| member | source | states |
|---|---|---|
| Framing.DecodeInverts | internal/audit/signed.go:93-129 | the entry framing has a left inverse: every field comes back (cut at 2^32 - 1 bytes) and so does the epoch, 0 and 1 identified |
| Framing.FramingInjective | internal/audit/epoch.go:126-134 | two signing inputs have the same bytes if and only if all fields and the effective epochs agree, within or across epochs |
| Framing.AnchorFramingInjective | internal/audit/anchor.go:99-105 | with NUL-free hash and time, two anchors share their signed bytes if and only if count, hash, time and epoch agree |
| Framing.AnchorHeadFixed | internal/audit/anchor.go:99-105 | even with NULs in the time, the signed bytes fix the count and the hash |
| Framing.AnchorCollisions | internal/audit/anchor.go:99-105 | whatever the times hold, two anchors with NUL-free hashes share their signed bytes if and only if they agree on count and hash and either on time and epoch or one first-epoch time has swallowed the other's NUL and epoch |
| Framing.AnchorNulCollision | internal/audit/anchor.go:99-105 | a concrete pair of anchors with NUL in the time and different epochs that are signed as the same bytes |
| Framing.DomainsSeparate | internal/audit/anchor.go:99-105 | no anchor signature can be replayed as an entry signature, nor the other way round |
| Framing.CapabilityIsNoEntry | internal/approve/hmac.go:30-48 | no signature over a capability URL, which the first epoch's key also makes, can be replayed as an entry signature |
| Framing.CapabilityIsNoAnchor | internal/approve/hmac.go:30-48 | nor as an anchor's |
| Chain.MarkerTargetRoundTrip | internal/audit/epoch.go:147-157 | the target a rotation writes is read back as its epoch, for every epoch from 2 on |
| Chain.WalkChain | internal/audit/verify.go:171-198 | the one-pass loop, stopping at the first bad entry, computes the specified walk |
| Chain.WalkMeaning | internal/audit/verify.go:206-248 | the walk gets through n entries if and only if each is in order by position, holding the positional epoch and counts; otherwise it names the first that is not |
| Chain.WalkAccepts | internal/audit/verify.go:171-236 | the walk accepts exactly the valid chains, and what it then reports is fixed |
| Chain.WalkVerdict | internal/audit/verify.go:206-296 | a walk that stops names the first entry out of order, the reason it gives is true of that entry, and the verdict is indeterminate if and only if what failed there is a key that cannot be read |
| Chain.NextEpochDoesNotWrap | internal/audit/verify.go:226-241 | the 32-bit successor check on a marker's target accepts only a true successor, so no wrap passes |
| Chain.CheckSigMeaning | internal/audit/verify.go:254-275 | the signature check passes if and only if the entry is unsigned, keys are not checked, or the signature is genuine under its epoch's key |
| Chain.CheckCustodyMeaning | internal/audit/verify.go:280-296 | the custody check passes if and only if the key of the epoch the marker opens has the marker's fingerprint |
| Chain.TailEpochIsWalkEpoch | internal/audit/epoch.go:165-183 | on a valid chain ending in a chained entry, the writers' last-line rule gives the verifier's full-walk epoch |
| Verifier.Scan | internal/audit/verify.go:462-494 | the scanning loop yields the parsed entries, or nothing as soon as one line is over-long or unparsable |
| Verifier.FindUnsignedExcess | internal/audit/verify.go:447-457 | the search finds a chained unsigned entry beyond the counter if and only if there is one |
| Verifier.RunVerify | internal/audit/verify.go:78-142 | the verifier with its loops computes the specified verdict |
| Verifier.PassMeansSound | internal/audit/verify.go:78-142 | with a key in force, `Verify` passes without truncation if and only if the log parses and is sound: valid chain reaching the pointer, genuine anchor over an intact prefix, length at least anchor and counter |
| Verifier.ExitTwoIff | internal/cli/cmd_audit.go:97-165 | with a key in force, exit 2 means exactly a log that parses and is broken for a reason other than an unreadable key, or stops before the pointer's epoch, or is unsound under an anchor that can be checked |
| Verifier.TamperingExitsTwo | internal/cli/cmd_audit.go:118-139 | when every key the verifier turns to can be read, a log that parses exits 2 if and only if it is not sound: tampering never passes for an unverifiable range |
| Verifier.ExitZeroIff | internal/cli/cmd_audit.go:134-165 | with a key in force, a clean exit means exactly a sound log whose length the keychain counter confirms |
| Verifier.IndeterminateIff | internal/audit/verify.go:98-128 | with or without keys, a verdict is indeterminate if and only if the pointer's own key is lost or the first entry out of order is so only for a key that cannot be read |
| Verifier.KeylessExitTwoIff | internal/audit/verify.go:322-356 | without a key in force, exit 2 means exactly a broken chain, or a counter ahead of a log that has no anchor |
| Verifier.KeylessExitZeroIff | internal/cli/cmd_audit.go:156-165 | without a key in force, the exit is clean exactly for a valid chain without an anchor whose length the counter confirms, never without a keychain |
| Verifier.TruncationIff | internal/audit/verify.go:128-139 | truncation is reported exactly when a valid chain stops short of the pointer's epoch, or of the length that a genuine anchor with an intact line, or the counter beside it, records |
| Verifier.LagIsExplained | internal/audit/verify.go:389-457 | a pass has its counter verified exactly when counter and length agree, and blames unsigned entries exactly when a chained unsigned one lies beyond the counter |
| Verifier.CurrentMeaning | internal/audit/epoch.go:97-110 | when the pointer's key is in force, lost, or unreadable, from what the keychain holds and refuses to answer |
| Verifier.ParseAllIff | internal/audit/verify.go:462-494 | a log parses if and only if every line is short enough and parses, and then into those entries in order |
| Writers.TickProgresses | internal/audit/signed.go:514-538 | every critical section ends: each store write strictly lowers its rank |
| Invariant.AppendKeeps | internal/audit/signed.go:452-506 | any entry in order at the end of the log, covered by the keychain, extends the whole store invariant |
| Invariant.TailEpochByPosition | internal/audit/epoch.go:165-183 | on every honest log the last-line epoch equals one plus the markers in the log, legacy heads included |
| Invariant.TailGuardPinsEpoch | internal/audit/signed.go:453-468 | a true cached pair passes the tail guard if and only if its epoch is the tail's, and then no rotation is half done |
| Invariant.SignedAppendKeeps | internal/audit/signed.go:452-506 | a signed append that passes the guard signs under exactly the tail epoch, which is the pointer's, and keeps the store invariant |
| Invariant.LegacyAppendKeeps | internal/audit/audit.go:122-167 | a legacy append to an unchained log keeps the store invariant |
| Invariant.UnsignedAppendSafeIffFirstEpoch | internal/audit/audit.go:150-166 | the chained-unsigned fallback leaves a valid chain if and only if the tail epoch is 1 |
| Invariant.PutAnchorKeeps | internal/audit/anchor.go:163-207 | an anchor written by any writer with a true pair, however stale, keeps the store invariant |
| Invariant.PutKeyKeeps | internal/audit/rotate.go:110-135 | storing a key beyond the tail, or the first key of a keyless store, keeps the store invariant |
| Invariant.SignCapabilityKeeps | internal/approve/hmac.go:42-48 | signing a capability URL with the first key keeps the store invariant, and with it what is known of issued signatures |
| Machine.TickKeeps | internal/audit/signed.go:382-538 | every store write of every critical section keeps the invariant of stores, running writer and counter, and takes nothing back, the anchored count included |
| Machine.StartRotationKeeps | internal/audit/rotate.go:83-135 | the opening of a rotation, fresh or resumed, keeps the invariant and never replaces a key the log has reached |
| Machine.EventKeeps | internal/audit/rotate.go:83-214 | every event of the many-writer system, crashes and failed writes included, keeps the system invariant |
| Machine.RunKeeps | internal/audit/signed.go:382-443 | so does every run, and over it the log is append-only, the pointer only advances, the anchored count never falls and no key the log has reached is replaced |
| Machine.ReachableInv | internal/audit/signed.go:382-538 | every reachable state satisfies the system invariant |
| Guarantees.SnapshotPasses | internal/audit/verify.go:78-142 | `Verify` passes a snapshot of honest stores if and only if not (a key exists and no anchor does) |
| Guarantees.NoFalseAlarm | internal/audit/verify.go:322-384 | in every reachable state, whoever crashed wherever, `Verify` passes exactly outside that window, and inside it the verdict is the missing anchor |
| Guarantees.AnchoredRunsNeverExitTwo | internal/cli/cmd_audit.go:97-165 | once an anchor exists, no run makes `audit verify` exit with 2 |
| Guarantees.FallbackReadsAsTampering | internal/audit/verify.go:217-224 | on honest stores past the first epoch one chained-unsigned append makes `Verify` report an epoch mismatch at that entry, and `audit verify` exit with 2 |
| Guarantees.LostKeysNeverAccuse | internal/audit/verify.go:98-121 | deleting any set of epoch keys after the first anchor leaves a pass or an indeterminate verdict, never an error, failure or truncation |
| Guarantees.LostKeysNeverAccuseReachable | internal/cli/cmd_audit.go:97-165 | in every reachable anchored state lost keys never lead to exit 2 or to a returned error |
| Guarantees.WalkUsesEveryKey | internal/audit/verify.go:254-296 | a walk that gets through an honest log has fetched the key of every epoch up to its tail |
| TamperEvidence.SharedPast | internal/audit/verify.go:209-216 | two entries with the same link share their whole past line for line, back to the predecessor of the first chained honest entry |
| TamperEvidence.IssuedEntrySignature | internal/audit/verify.go:303-317 | an issued signature over an entry's framing is the signature of an honest entry with the same fields and epoch |
| TamperEvidence.SignedEntriesAreHonest | internal/audit/verify.go:171-317 | soundness: a signed entry of any accepted log agrees with an honest entry on every signed field, and all lines before it are the honest ones; born at genesis, at the same index |
| TamperEvidence.GenuineAnchorIsHonest | internal/audit/anchor.go:305-330 | a genuine anchor, whoever presents it, describes a prefix of the honest log |
| TamperEvidence.AnchoredHistoryIsFixed | internal/audit/verify.go:322-439 | any log sound under any genuine anchor has the honest lines up to the anchored count, back to the first pinned one |
| TamperEvidence.PassingLogIsHonest | internal/audit/verify.go:78-142 | over reachable states: a log and anchor that `Verify` passes are as long as anchor and counter say, agree with the honest log on all anchored lines and on everything up to their last signed entry |
| Scenario.FirstAppend | internal/audit/signed.go:847-870 | a first append on a fresh host reaches a quiet state with one counted, anchored entry that `Verify` passes, and its log and anchor meet every assumption of the soundness theorem |
| Scenario.CrashBeforeFirstAnchor | internal/audit/verify.go:322-340 | one crash after the first key is stored reaches a state that `Verify` rejects for its missing anchor, with exit code 2 |
| Scenario.FallbackAfterRotation | internal/audit/audit.go:147-166 | an append, a rotation and a plain append that cannot reach the keychain: the first two leave stores `Verify` passes, the third makes it exit with 2 |
| Rotation.RotationInvariant | internal/audit/rotate.go:101-151 | in every reachable state the tail is the pointer or one more, one more exactly when the last line is that marker; markers match the stored keys; every cached pair is true and at most the pointer |
| Rotation.RotationRecovers | internal/audit/rotate.go:83-214 | from any crash state one rerun succeeds, advances the pointer by exactly one to the tail, keeps every earlier line and key, counts a marker only when fresh, and the verifier passes |
| Rotation.RotationRecoversFromCrash | internal/audit/rotate.go:177-214 | the same for every reachable state once the lock is free |
| Rotation.PreviewForecasts | internal/audit/rotate.go:44-58 | the dry run names the epoch the rotation then moves to, and whether it resumes |
| Rotation.RunTaskKeeps | internal/audit/signed.go:514-538 | a section cut off after any number of store writes keeps the local invariant |
| Rotation.BlockedBatchChangesNothing | internal/audit/signed.go:462-468 | a writer whose epoch is not the tail's leaves all stores as they were and reports failure |
| Rotation.HalfRotationBlocksAppends | internal/audit/signed.go:462-468 | while the tail is ahead of the pointer no signed append by anyone changes anything |
| Rotation.RotationSparesKeysIffNoWrap | internal/audit/rotate.go:110-135 | the first store write of a fresh rotation spares every key the log has reached if and only if the pointer is short of the last 32-bit epoch, or the new key equals the first one |
| Ledger.EventBooks | internal/audit/anchor.go:275-301 | at every event the settled lag grows by exactly the entries that event leaves uncounted |
| Ledger.RunBooks | internal/audit/signed.go:398-438 | over any run the lag is conserved up to exactly those entries |
| Ledger.CounterNeverAhead | internal/audit/verify.go:389-439 | from the empty stores, entries equal counter plus uncounted plus in flight; the counter never exceeds the log |
| Progress.BatchGoesThrough | internal/audit/signed.go:382-443 | a batch whose writer holds the tail's epoch, or may create the first key, succeeds when its store writes do: exactly its entries are recorded, each signed at the tail's epoch, all are counted, and the anchor covers the whole log |
| Progress.BatchSucceedsIffReady | internal/audit/signed.go:452-538 | with enough successful store writes a batch succeeds if and only if the writer's epoch is the tail's or the first key may be created; otherwise no store changes |
| Progress.BatchCutOff | internal/audit/signed.go:514-538 | a batch cut off after any number of store writes has appended one entry for each write after the first, succeeds if and only if its anchor was written, and is counted in full or, when only the counter write fails, not at all |
| Progress.FreshRotationCutOff | internal/audit/rotate.go:117-171 | a fresh rotation cut off after any number of store writes: key, marker, pointer, anchor and counter are written in this order and nothing else is, and it succeeds if and only if the anchor was written |
| Progress.FreshMarkerMeaning | internal/audit/rotate.go:133-141 | the marker of a fresh rotation names the epoch it opens and carries the fingerprint of that epoch's key, as a real entry linked to the last line and signed under the epoch it ends |
| Progress.SuccessAnchorsAll | internal/audit/anchor.go:163-207 | whenever a batch, a rotation or a refresh with a key returns success, the anchor records the count and the last line of the whole log |
| Progress.SuccessSealsPointer | internal/audit/rotate.go:151-157 | a rotation or refresh that returns success has sealed the anchor under the pointer's epoch |
| Progress.SuccessCoversLog | internal/audit/signed.go:514-538 | in every reachable state, whatever other processes did meanwhile, the store write with which a batch or rotation returns success leaves an anchor over the whole log |
| Progress.SuccessFixesWholeLog | internal/audit/verify.go:322-384 | after a success, any log that passes under the stored anchor has at least the honest log's lines and agrees with it on all of them back to the first pinned one |
| Progress.KeylessRotationRefused | internal/audit/rotate.go:101-113 | without the pointer's key a rotation is refused and changes nothing |
| Progress.LostKeyNeverReplaced | internal/audit/signed.go:237-266 | on any stores, a missing key is created only for the first epoch and by a writer that may; otherwise the batch is refused and changes nothing |
| Progress.CompletesIffHandedOver | internal/audit/rotate.go:177-214 | on any stores with the tail ahead, a rotation completes if and only if the last line vouches for the very next epoch's stored key; otherwise it is refused and changes nothing |
| SignedWriter.SignedAudit.HmacKey | internal/audit/signed.go:207-227 | returns and caches the cached pair, else the current one; nothing when that is absent or the keychain cannot be read |
| SignedWriter.SignedAudit.EnsureKeyLocked | internal/audit/signed.go:237-266 | is the key-securing step: creates only a first key, never replaces a lost rotated one, and fails closed while the keychain cannot be read |
| SignedWriter.SignedAudit.AppendNoRefresh | internal/audit/signed.go:452-506 | is the guarded append step on the shared stores |
| SignedWriter.SignedAudit.WriteAnchorWithKey | internal/audit/anchor.go:163-207 | is the anchor write |
| SignedWriter.SignedAudit.AddToCounter | internal/audit/anchor.go:292-301 | is the counter bump |
| SignedWriter.SignedAudit.Append | internal/audit/signed.go:847-870 | leaves host and cache exactly as the run of its section does, whichever store write or keychain read fails |
| SignedWriter.SignedAudit.BackupNoRefresh | internal/audit/signed.go:554-570 | backup file and backup entry together: the file is there exactly when the entry is |
| SignedWriter.SignedAudit.WriteFileLocked | internal/audit/signed.go:382-443 | one signed file write on files and stores: host and cache as the run of its section leaves them, files and recorded log as `ApplyWrite` says on success, and after a failure the target untouched and the backup kept or rolled back |
| FileWrites.BatchRecords | internal/audit/signed.go:398-438 | whatever store write a batch fails at, the log has gained the records of the first few of its entries, and of all when it succeeds |
| FileWrites.SignedBatchRecords | internal/audit/signed.go:382-443 | what planning reads of the log after a signed write is exactly what `ApplyWrite` says, or a prefix of it after a failure |
| SignedWriter.SignedAudit.CompleteRotationLocked | internal/audit/rotate.go:177-214 | is the resumed half of the rotation section, checking the marker's fingerprint |
| SignedWriter.SignedAudit.RotateHMACKey | internal/audit/rotate.go:83-171 | leaves host and cache exactly as the run of the rotation section does, whichever store write or keychain read fails |
| SignedWriter.CallsAreSafe | internal/audit/signed.go:382-538 | every call of the object, cut off anywhere, keeps the store invariant, takes nothing back, and leaves stores the verifier passes unless the first anchor is still missing |
| PlainWriter.Audit.SignedDelegate | internal/audit/audit.go:172-195 | the delegate is opened once and starts with an empty cache; a failure to open is not remembered |
| PlainWriter.Audit.AppendLocked | internal/audit/audit.go:122-167 | the legacy route exactly on a log without a chain; on a chained log the unsigned route exactly when no keychain can be opened and no delegate exists, or there is neither a cached pair nor a readable current key; and the stores that route describes |
| PlainWriter.Audit.WriteFileLocked | internal/audit/write.go:95-121 | one plain file write on files and stores: on success files and recorded log as `ApplyWrite` says, after a refused entry no file touched |
| PlainWriter.RouteRecords | internal/audit/audit.go:122-167 | every route that succeeds records exactly the intent |
| PlainWriter.PlainAppendSigns | internal/audit/audit.go:122-167 | what one append on honest stores leaves, route unmentioned: a legacy entry without a chain; on a chain an unsigned one if and only if no key can be had; else one signed under the tail epoch's key, counted and anchored with the whole log, or nothing when the writer's epoch is not the tail's |
| PlainWriter.PlainAppendIsSafe | internal/audit/audit.go:122-167 | one plain append leaves a valid chain if and only if it did not take the unsigned route after the first epoch |
| Sidecars.SplitRecoversPath | internal/audit/reverse.go:312-316 | the last-".bak." split recovers the path of every generated backup name |
| Sidecars.OriginalOfIff | internal/audit/reverse.go:312-316 | a name is a backup of a target if and only if it starts with the target and ".bak." and holds no later ".bak." |
| Sidecars.PrefixScanClaims | internal/audit/backup.go:96-108 | a prefix scan for a target claims a generated backup if and only if it is the target's own or that of a path nested in its backup namespace |
| ReversePlan.BuildIndex | internal/audit/reverse.go:272-325 | the one-pass loop's index answers targets, backups, restored flag and last-write hash as whole-log scans per target do |
| ReversePlan.ScanBackups | internal/audit/backup.go:96-108 | the per-target loop returns exactly the claimed backup entries, in order |
| ReversePlan.OnePassRefinesScan | internal/audit/reverse.go:285-334 | the index and the per-target scan see the same backups if and only if every claimed entry is a real backup of the target |
| ReversePlan.GeneratedBackupAgrees | internal/audit/backup.go:96-108 | for generated names they disagree about an entry exactly when it is a dry run of the target or belongs to a nested path |
| ReversePlan.FindFirst | internal/audit/reverse.go:400-409 | the search returns the least name of the directory listing |
| ReversePlan.PlanReverseTarget | internal/audit/reverse.go:342-348 | one target's decision with its drift guard, from the state of log and disk |
| ReversePlan.PlanReverseExcluding | internal/audit/reverse.go:272-335 | one pass plus one decision per target yields the plan read off the log target by target |
| Planning.PlanListsTargets | internal/audit/reverse.go:285-334 | the plan names exactly the really written targets that are not excluded, each once, in the order of their first writes |
| Planning.PlanMeaning | internal/audit/reverse.go:342-418 | for each of skip, keep, delete and restore, exactly when it is planned, from log entries and disk alone; a restore uses the earliest backup entry whose file is left, with its hash, or the first backup file when the log knows nothing |
| Sidecars.StrLessIff | internal/audit/reverse.go:400-409 | the order in which the first backup file is first: the shorter, or the one with the smaller byte where two names first differ |
| Reverse.ReverseExcluding | internal/audit/reverse.go:438-517 | the loop over the plan leaves the specified disk, log and failures, refused deletes included; a dry run only reports |
| Reverse.ReversalRecords | internal/audit/reverse.go:438-504 | what the log gains over a reversal of targets that keep apart: for each restore whose backup is there and each delete that the log accepts, one record with operation, target and the hash of the restored or empty content, in plan order |
| Reverse.RestoreRefusedIff | internal/audit/reverse.go:141-160 | a restore is refused if and only if its target is not absolute or cannot be changed, or the backup is gone, in another directory, or differs from the recorded hash |
| Reverse.ForeseenIff | internal/audit/reverse.go:476-489 | a dry run reports exactly the targets of restores whose backup is there with another hash than recorded |
| Reverse.DryRunForesees | internal/audit/reverse.go:476-489 | what a dry run reports as refused, the real run refuses |
| Reverse.ExecuteAllAt | internal/audit/reverse.go:438-470 | when targets keep apart, each ends up as its own action on the original disk leaves it |
| Reverse.ReversedAt | internal/audit/reverse.go:438-517 | the same for the plan of a log: targets never disturb one another |
| Reverse.ReversedElsewhere | internal/audit/reverse.go:476-517 | nothing outside the written targets and their backups is touched |
| Reverse.DriftSurvivesUnlessCleared | internal/audit/reverse.go:342-363 | whatever the targets are called, a target that differed from a known last write at planning time keeps its bytes if and only if no restore that goes through clears it away as a backup of another target |
| Reverse.DriftedFileIsCleared | internal/audit/reverse.go:508-516 | a log and a disk on which an edited target is planned Keep and lost |
| Reverse.DriftIsRespected | internal/audit/reverse.go:354-363 | a drifted target that keeps apart from the other planned ones keeps its bytes and its backups |
| SecondReverse.PlanAgain | internal/audit/reverse.go:342-418 | after a target's own action succeeded, what a second plan makes of it, for every case |
| SecondReverse.SecondPlanIdle | internal/audit/reverse.go:438-517 | after an error-free reversal a second plan has only skips and keeps, if and only if for every directory-listing restore whose record the log refuses the backup differed from the last write |
| SecondReverse.ReverseIsIdempotent | internal/audit/reverse.go:438-517 | when the log accepts the records, a second uninstall plans nothing and changes nothing |
| RoundTrip.WriteThenReverse | internal/audit/reverse.go:272-517 | after any run of writes from any files and any log, an uninstall with any exclusions takes each written target to its fate, read off the start: the earliest recorded backup that still exists, else what the first signed overwrite displaced, else nowhere if the log has closed the book, else the first backup file or away; after a restore its backups are gone |
| RoundTrip.EarlierTargetsAsBefore | internal/audit/reverse.go:272-335 | targets of earlier installs that the run did not write are reversed as if there had been no run |
| RoundTrip.ElsewhereUntouched | internal/audit/reverse.go:476-517 | every other path, excluded targets included, is left as the run left it, and outside the run's targets as it was |
| RoundTrip.ComesBackIff | internal/audit/reverse.go:367-418 | without stray backups a target goes back to what its first overwrite displaced if and only if the first signed overwrite displaced the same, or there was none and the log had not closed the book on it, or it holds those bytes anyway |
| RoundTrip.OneWriterComesBackIff | internal/audit/reverse.go:389-398 | with one kind of writer: a signed target that was there always comes back, any other if and only if the log had not closed the book on it or the bytes are the same |
| RoundTrip.DisplacedMeaning | internal/audit/signed.go:398-414 | what was displaced: the original bytes of a pre-existing file, nothing for a file created by a single write, and its own first version for one created and rewritten |
| RoundTrip.UninstallRestoresDisk | internal/audit/reverse.go:272-517 | from any files and any log with nothing left to reverse, an uninstall gives back the starting disk when every written target returns |
| RoundTrip.SignedCyclesReturn | internal/cli/cmd_uninstall.go:116-124 | any number of signed installs and uninstalls over pre-existing files, on the log they leave behind, ends with the disk it began with |
| RoundTrip.PlainReinstallStays | internal/audit/reverse.go:389-398 | a plain write, a recorded uninstall and the same write again: every byte abysslink wrote stays through the next uninstall |
| RoundTrip.SecondUninstallDeletes | internal/audit/reverse.go:400-415 | a plain write of the bytes already there, an uninstall whose record is refused, and a second uninstall that deletes the file |
| Approve.PendingReq.Resolve | internal/approve/registry.go:93-102 | wins exactly when the request is pending; the winner sets the state and buffers its answer, a loser changes nothing |
| Approve.PendingReq.Wait | internal/approve/registry.go:255-294 | reports the settled state, its own timeout deny, or the TTY fallback, each exactly when due; an approval is never made up |
| Approve.Registry.Open | internal/approve/registry.go:161-227 | a request is refused, and never enters the map, if and only if it is declared critical or its name matches a critical pattern; any other enters it pending, under a new object |
| Approve.ContainsIff | internal/approve/tier.go:59-71 | a critical pattern is found wherever it stands in a name |
| Approve.Registry.Resolve | internal/approve/registry.go:233-245 | true exactly for a listed pending request, and only that request's decision changes |
| Approve.Registry.WaitByID | internal/approve/registry.go:300-308 | which of not found, TTY fallback, headless deny and settled decision is returned, each exactly when due, and no other request changes |
| Approve.Registry.StateOf | internal/approve/registry.go:317-329 | the settled decision, or unresolved for unknown and pending requests |
| ApproveRace.StepInv | internal/approve/registry.go:93-102 | swap, send, receive, drain and load, interleaved by any number of callers, keep the race invariant |
| ApproveRace.FirstAnswerWins | internal/approve/registry.go:233-294 | in every interleaving at most one caller is told it won, the state is that caller's answer, at most one resolution is sent, and every reported decision is the state |
| ApproveRace.FirstAnswerIsFinal | internal/approve/registry.go:93-102 | once out of pending, state, winner and what callers were told never change |
| ApproveRace.ApprovalComesFromAnApprove | internal/approve/registry.go:255-294 | approved is reported only if an approving resolver won the swap |
| ApproveRace.BlocksIffWaiting | internal/approve/registry.go:255-294 | in every reachable state a caller cannot move if and only if it is a waiter with a live context and an empty buffer: sends never block, and no waiter blocks after its context ends |
| ApproveRace.AtMostFourSteps | internal/approve/registry.go:233-308 | every caller returns after at most four steps of its own, in any interleaving |
| ApproveRace.ResolveIsARun | internal/approve/registry.go:93-102 | an uninterrupted resolve of the race has the effect the object's method promises |
| ApproveRace.WaitIsARun | internal/approve/registry.go:255-294 | so has an uninterrupted wait |
| Ladder.Watcher.Answer | internal/approve/registry.go:233-245 | a batch of taps settles each pending request with its first tap and nothing else |
| Ladder.Watcher.Await | internal/budget/budget.go:455-488 | one wait: its decision from the first tap, the deadline, the parent and the registry, and how the request ends up |
| Ladder.Watcher.Ask | internal/budget/budget.go:495-531 | opens one new pending request and leaves every other as it was |
| Ladder.Watcher.RunLadder | internal/budget/budget.go:403-489 | sends exactly the specified signals, and every request it opened ends with its first tap's answer, denied by timeout, or pruned; without a registry it never stops the group |
| Ladder.NeverLeftFrozen | internal/budget/budget.go:422-436 | on every return the last signal is a resume or a kill; until then it is the stop |
| Ladder.StoppedIffNobodyDecides | internal/budget/budget.go:455-472 | the group has only been stopped, and the ladder not returned, if and only if at every wait the parent lives, the request is there, and its first answer is absent or a deny read at the deadline |
| Ladder.ResumesIffApprovedOrEnded | internal/budget/budget.go:463-482 | the trace holds a resume if and only if at the first other wait the parent has ended, or the request is there and its first answer is an approve; no deny, however late, resumes the group |
| Ladder.KillsIffDeniedInTime | internal/budget/budget.go:468-488 | a kill follows a terminate and happens if and only if that wait, with the parent alive, finds a deny read before the deadline or a pruned request |
| Ladder.ApproveAlwaysResumes | internal/budget/budget.go:463-482 | an approve that is the first answer resumes the group even at the deadline |
| Ladder.TimeoutsNeverDecide | internal/budget/budget.go:468-472 | while nobody answers or prunes, any number of timeouts leave the group stopped |
| LoopDetector.Detector.Push | internal/budget/budget.go:154-168 | after any pushes, trips if and only if the new hash occurs at least tripN times among the last windowSize pushes |
| LoopDetector.Detector.CountFilled | internal/budget/budget.go:161-167 | the counting loop counts the occurrences in the filled slots |
| LoopDetector.SlotsHoldWindow | internal/budget/budget.go:143-168 | the filled slots of the ring hold exactly the sliding window's hashes, as a multiset |
| LoopDetector.PushHolds | internal/budget/budget.go:154-160 | overwriting the next slot keeps every hash that is still in the window in its slot |
| LoopDetector.TripsIffCountFits | internal/budget/budget.go:143-168 | some run of pushes trips if and only if tripN is at most windowSize |
| Follow.FindAfter | internal/backend/netbird_events.go:182-198 | the search returns what follows the watermark, or the whole snapshot when it is not there |
| Follow.EventsAfterMeaning | internal/backend/netbird_events.go:182-198 | what is newer in any snapshot: what follows the first event that cannot be told from the watermark, or everything when there is none |
| Follow.TailEvents | internal/backend/netbird_events.go:93-153 | the polling loop prints and backs off as the step specification says |
| Follow.FollowRefines | internal/backend/netbird_events.go:93-198 | on every feed in which no event can be taken for another, by id or, without one, by time, the output is exactly a cursor's positions in the history |
| Follow.InOrderIffEndsGrow | internal/backend/netbird_events.go:168-198 | the output is in history order without duplicates if and only if non-empty snapshots never end earlier than before |
| Follow.CompleteIffNothingSurfacesLate | internal/backend/netbird_events.go:168-198 | given that, exactly what the polls returned is printed if and only if no poll first shows an event older than one already shown |
| Follow.ForwardFeedsSurfaceNothingLate | internal/backend/netbird_events.go:168-198 | a feed whose non-empty snapshots never start earlier than before surfaces nothing late |
| Follow.LateEventIsLost | internal/backend/netbird_events.go:93-198 | on every history of eight events or more, one of which is given by `EightEvents`, a follower that first sees only the sixth and then the first eight never prints the first |
| Follow.PrintsExactlyOnce | internal/backend/netbird_events.go:93-153 | when ends grow and nothing surfaces late, which covers feeds that only move forward, every returned event is printed exactly once, in history order |
| Follow.IntervalWithinCap | internal/backend/netbird_events.go:200-207 | the poll interval stays between start and cap, whatever the polls return |
| Follow.IdleDoubles | internal/backend/netbird_events.go:122-150 | after k polls that bring nothing the interval is the start doubled k times, or the cap |
| Follow.NewsResets | internal/backend/netbird_events.go:138-147 | a poll that prints something resets the interval to the start |

## Left out

- Hash and MAC internals, constant-time comparison, locked memory and random key generation: idealised as described above. Request ids and actions of capability URLs are under 2^32 bytes.
- JSON and its UTF-8 replacement: an entry is assumed to read back from its own line, which holds for valid UTF-8 text in lines under the scanner's 1 MiB limit; the text of a time is abstract.
- Verify: takes no lock in the source, so it is given one atomic snapshot of log, anchor and keychain.
- Runs of `Machine` stop short of the 2^32 - 1st rotation and keep the chained-unsigned fallback to the first epoch; both exclusions are shown necessary by their own lemmas. Callers do not use the reserved marker operation name.
- Log size limits of the writers, overflow of the 64-bit counter, and the streaming copy of `WriteFilePath` with its size ceiling.
- `Update`, `RestoreGated`, `MutatedTargets` as a separate pass, `ReadEpochStatus` and the test-mode delegate: they repeat parts modelled here.
- File-system detail: permissions, symbolic links, temporary names, fsync, path cleaning and glob metacharacters; a file write is an atomic replace and a log append an atomic line.
- Reverse.ReverseExcluding: the removal of backup files after a restore always succeeds, as the source ignores it when it does not; of the dry run's report only the refusals are modelled, not the hashes shown.
- Reverse.DriftIsRespected: also covers the target's backups, and so asks that no other planned target shares its backup namespace; the target's own bytes are covered in general by `DriftSurvivesUnlessCleared`.
- RoundTrip.WriteThenReverse: asks for absolute targets, old and new, that are not nested in one another's backup namespace, and for a clock that never repeats a stamp; file writes succeed once their log entry is in.
- RoundTrip.ComesBackIff: and the corollaries below it ask for no stray files in the target's backup namespace; `WriteThenReverse` gives the fate with strays.
- The configured extra critical patterns, which `Open` does not pass on; the check of a capability URL's signature; `stateTimeout`, which the registry never sets; reuse of a request id.
- Ladder.Watcher.RunLadder: works on a finite script of waits, and reports that it has not returned when all of them ask again; a peer waiter's timeout counts as a deny tap. Notifications and failed signal sends, which the source only logs, are not recorded.
- `Watch`, its select loop, the wall-clock and spend limits, and `bindCastAudit`.
- Real time: tickers, sleeps, grace periods and deadlines are choices of the environment.
- Follow.TailEvents: the first snapshot is given; write errors and cancellation end the list of polls.
- REST adapters, configuration, doctor checks and command wiring, apart from the exit code of `audit verify`.
