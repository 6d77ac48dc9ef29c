/** Planning an uninstall from the log: the one-pass index, the simple scan it replaces, and the decision
    for each target.
  */
module ReversePlan {
  import opened Text
  import opened Chain
  import opened Sidecars

  type Disk = map<string, string>

  /** The fields of a log entry that planning reads. */
  datatype Record = Record(op: string, target: string, hash: string, dryRun: bool)

  predicate IsWrite(r: Record) {
    r.op == "write" && !r.dryRun
  }

  /** Distinct written targets in first-seen order. */
  function WriteTargets(log: seq<Record>): seq<string> {
    if log == [] then []
    else
      var ts := WriteTargets(log[..|log| - 1]);
      var r := log[|log| - 1];
      if IsWrite(r) && r.target !in ts then ts + [r.target] else ts
  }

  /** A real backup entry whose name splits back to `t`. */
  predicate Attests(r: Record, t: string) {
    r.op == "backup" && !r.dryRun && OriginalOf(r.target) == Some(t)
  }

  function Attested(log: seq<Record>, t: string): seq<Record> {
    if log == [] then []
    else
      var rs := Attested(log[..|log| - 1], t);
      if Attests(log[|log| - 1], t) then rs + [log[|log| - 1]] else rs
  }

  predicate Restores(r: Record, t: string) {
    r.op == "restore" && !r.dryRun && r.target == t
  }

  predicate Restored(log: seq<Record>, t: string) {
    exists i | 0 <= i < |log| :: Restores(log[i], t)
  }

  /** Hash of the content last written to `t`, "" when unknown. */
  function LastWrite(log: seq<Record>, t: string): string {
    if log == [] then ""
    else if IsWrite(log[|log| - 1]) && log[|log| - 1].target == t then log[|log| - 1].hash
    else LastWrite(log[..|log| - 1], t)
  }

  // ---------- the one-pass index ----------

  datatype Index = Index(
    targets: seq<string>,
    attested: map<string, seq<Record>>,
    restored: set<string>,
    lastWrite: map<string, string>)

  function Lookup<T>(m: map<string, T>, k: string, default: T): T {
    if k in m then m[k] else default
  }

  /** The index answers every per-target question as a scan of the whole log for that target would. */
  ghost predicate Indexes(ix: Index, log: seq<Record>) {
    && ix.targets == WriteTargets(log)
    && (forall t :: Lookup(ix.attested, t, []) == Attested(log, t))
    && (forall t :: t in ix.restored <==> Restored(log, t))
    && (forall t :: Lookup(ix.lastWrite, t, "") == LastWrite(log, t))
  }

  lemma RestoredStep(log: seq<Record>, r: Record, t: string)
    ensures Restored(log + [r], t) <==> Restored(log, t) || Restores(r, t)
  {
    var l := log + [r];
    if Restored(log, t) {
      var i :| 0 <= i < |log| && Restores(log[i], t);
      assert Restores(l[i], t);
    }
    if Restores(r, t) {
      assert Restores(l[|log|], t);
    }
  }

  lemma ScanStep(log: seq<Record>, r: Record, t: string)
    ensures WriteTargets(log + [r])
         == if IsWrite(r) && r.target !in WriteTargets(log) then WriteTargets(log) + [r.target] else WriteTargets(log)
    ensures Attested(log + [r], t) == if Attests(r, t) then Attested(log, t) + [r] else Attested(log, t)
    ensures LastWrite(log + [r], t) == if IsWrite(r) && r.target == t then r.hash else LastWrite(log, t)
  {
    assert (log + [r])[..|log|] == log;
  }

  /** One log entry's effect on the index. */
  function StepIndex(ix: Index, e: Record): Index {
    if e.dryRun then ix
    else if e.op == "write" then
      ix.(targets := if e.target in ix.targets then ix.targets else ix.targets + [e.target],
          lastWrite := ix.lastWrite[e.target := e.hash])
    else if e.op == "backup" then
      match OriginalOf(e.target)
      case None => ix
      case Some(orig) => ix.(attested := ix.attested[orig := Lookup(ix.attested, orig, []) + [e]])
    else if e.op == "restore" then ix.(restored := ix.restored + {e.target})
    else ix
  }

  lemma StepIndexKeeps(ix: Index, log: seq<Record>, e: Record)
    requires Indexes(ix, log)
    ensures Indexes(StepIndex(ix, e), log + [e])
  {
    hide OriginalOf, WriteTargets, Attested, LastWrite, Restored;
    var next := StepIndex(ix, e);
    ScanStep(log, e, "");
    forall t ensures Lookup(next.attested, t, []) == Attested(log + [e], t) {
      ScanStep(log, e, t);
    }
    forall t ensures t in next.restored <==> Restored(log + [e], t) {
      RestoredStep(log, e, t);
    }
    forall t ensures Lookup(next.lastWrite, t, "") == LastWrite(log + [e], t) {
      ScanStep(log, e, t);
    }
  }

  /** The planner's single loop over the log. */
  method BuildIndex(log: seq<Record>) returns (ix: Index)
    ensures Indexes(ix, log)
  {
    hide Indexes;
    var targets: seq<string> := [];
    var attested: map<string, seq<Record>> := map[];
    var restored: set<string> := {};
    var lastWrite: map<string, string> := map[];
    EmptyScan();
    for i := 0 to |log|
      invariant Indexes(Index(targets, attested, restored, lastWrite), log[..i])
    {
      var e := log[i];
      StepIndexKeeps(Index(targets, attested, restored, lastWrite), log[..i], e);
      assert log[..i + 1] == log[..i] + [e];
      if e.dryRun {
        continue;
      }
      if e.op == "write" {
        if e.target !in targets {
          targets := targets + [e.target];
        }
        lastWrite := lastWrite[e.target := e.hash];
      } else if e.op == "backup" {
        var orig := OriginalOf(e.target);
        if orig.Some? {
          attested := attested[orig.value := Lookup(attested, orig.value, []) + [e]];
        }
      } else if e.op == "restore" {
        restored := restored + {e.target};
      }
    }
    assert log[..|log|] == log;
    ix := Index(targets, attested, restored, lastWrite);
  }

  lemma EmptyScan()
    ensures Indexes(Index([], map[], {}, map[]), [])
  {
  }

  // ---------- the simple scan it replaces ----------

  predicate ScanClaims(r: Record, t: string) {
    r.op == "backup" && t + BAK <= r.target
  }

  /** BackupsFromChain: every backup entry whose name starts with the target's backup prefix. */
  function BackupsFromChain(log: seq<Record>, t: string): seq<Record> {
    if log == [] then []
    else
      var rs := BackupsFromChain(log[..|log| - 1], t);
      if ScanClaims(log[|log| - 1], t) then rs + [log[|log| - 1]] else rs
  }

  /** BackupsFromChain as it runs. */
  method ScanBackups(log: seq<Record>, t: string) returns (result: seq<Record>)
    ensures result == BackupsFromChain(log, t)
  {
    result := [];
    for i := 0 to |log|
      invariant result == BackupsFromChain(log[..i], t)
    {
      assert log[..i + 1][..i] == log[..i];
      if log[i].op == "backup" && t + BAK <= log[i].target {
        result := result + [log[i]];
      }
    }
    assert log[..|log|] == log;
  }

  /** Each target scanned for on its own, as the planner once did. */
  ghost predicate ScanAgrees(log: seq<Record>, t: string) {
    Attested(log, t) == BackupsFromChain(log, t)
  }

  lemma OriginalIsPrefix(name: string)
    requires OriginalOf(name).Some?
    ensures OriginalOf(name).value + BAK <= name
  {
    var i := LastBak(name);
    assert name[..i + 5] == name[..i] + BAK;
  }

  lemma AttestedIsClaimed(r: Record, t: string)
    requires Attests(r, t)
    ensures ScanClaims(r, t)
  {
    OriginalIsPrefix(r.target);
  }

  lemma {:induction false} AttestedNoLonger(log: seq<Record>, t: string)
    ensures |Attested(log, t)| <= |BackupsFromChain(log, t)|
    ensures |Attested(log, t)| == |BackupsFromChain(log, t)| ==>
              forall i | 0 <= i < |log| && ScanClaims(log[i], t) :: Attests(log[i], t)
  {
    if log != [] {
      var k := |log| - 1;
      AttestedNoLonger(log[..k], t);
      if Attests(log[k], t) {
        AttestedIsClaimed(log[k], t);
      }
      forall i | 0 <= i < |log| && ScanClaims(log[i], t) && |Attested(log, t)| == |BackupsFromChain(log, t)|
        ensures Attests(log[i], t)
      {
        if i < k {
          assert log[..k][i] == log[i];
        }
      }
    }
  }

  /** One-pass planning sees the same backups as the per-target scan exactly when the scan claims only
      real backups of the target itself. */
  lemma {:induction false} OnePassRefinesScan(log: seq<Record>, t: string)
    ensures ScanAgrees(log, t) <==> forall i | 0 <= i < |log| && ScanClaims(log[i], t) :: Attests(log[i], t)
  {
    AttestedNoLonger(log, t);
    if log != [] && forall i | 0 <= i < |log| && ScanClaims(log[i], t) :: Attests(log[i], t) {
      var k := |log| - 1;
      OnePassRefinesScan(log[..k], t);
      forall i | 0 <= i < k && ScanClaims(log[..k][i], t) ensures Attests(log[..k][i], t) {
        assert log[..k][i] == log[i];
      }
      if Attests(log[k], t) {
        AttestedIsClaimed(log[k], t);
      }
    }
  }

  /** A backup entry as the writers make it. */
  predicate IsGeneratedBackup(r: Record, path: string, stamp: string) {
    r.op == "backup" && path != "" && StampText(stamp) && r.target == Sidecar(path, stamp)
  }

  /** For generated names the two disagree about an entry exactly when it is a dry run of the target, or
      belongs to a path nested in the target's backup namespace. */
  lemma GeneratedBackupAgrees(r: Record, path: string, stamp: string, t: string)
    requires IsGeneratedBackup(r, path, stamp)
    ensures (ScanClaims(r, t) ==> Attests(r, t))
       <==> !(path == t && r.dryRun) && !(path != t && NestedIn(path, t))
  {
    SplitRecoversPath(path, stamp);
    PrefixScanClaims(t, path, stamp);
  }

  // ---------- deciding ----------

  datatype Action = Restore(backup: string, chainHash: string) | Delete | Skip | Keep

  /** The backup files a glob of "<target>.bak.*" finds: same directory, so no further slash. */
  function SidecarsOf(disk: Disk, t: string): set<string> {
    set p | p in disk && IsSidecarName(p, t)
  }

  predicate IsSidecarName(p: string, t: string) {
    t + BAK <= p && '/' !in p[|t| + 5..]
  }

  ghost predicate IsFirst(p: string, s: set<string>) {
    p in s && forall q | q in s && q != p :: StrLess(p, q)
  }

  /** The lexically first of the globbed names. */
  ghost function FirstSidecar(s: set<string>): string {
    if exists p :: IsFirst(p, s) then var p :| IsFirst(p, s); p else ""
  }

  function Existing(disk: Disk, chain: seq<Record>): seq<Record> {
    if chain == [] then []
    else if chain[0].target in disk then [chain[0]] + Existing(disk, chain[1..])
    else Existing(disk, chain[1..])
  }

  predicate Drifted(env: Env, disk: Disk, t: string, lastHash: string) {
    lastHash != "" && t in disk && HashOf(env, disk[t]) != lastHash
  }

  ghost function DecideAction(disk: Disk, t: string, chain: seq<Record>, restored: bool): Action {
    var existing := Existing(disk, chain);
    if existing != [] then Restore(existing[0].target, existing[0].hash)
    else if chain != [] || restored then Skip
    else if SidecarsOf(disk, t) != {} then Restore(FirstSidecar(SidecarsOf(disk, t)), "")
    else if t in disk then Delete
    else Skip
  }

  ghost function PlanTarget(env: Env, disk: Disk, t: string, chain: seq<Record>, restored: bool, lastHash: string): Action {
    var a := DecideAction(disk, t, chain, restored);
    if (a.Restore? || a.Delete?) && Drifted(env, disk, t, lastHash) then Keep else a
  }

  ghost function PlanFor(env: Env, log: seq<Record>, disk: Disk, t: string): Action {
    PlanTarget(env, disk, t, Attested(log, t), Restored(log, t), LastWrite(log, t))
  }

  type Plan = seq<(string, Action)>

  ghost function PlanOver(env: Env, log: seq<Record>, disk: Disk, targets: seq<string>): (plan: Plan)
    ensures |plan| == |targets|
    ensures forall i | 0 <= i < |targets| :: plan[i] == (targets[i], PlanFor(env, log, disk, targets[i]))
  {
    seq(|targets|, i requires 0 <= i < |targets| => (targets[i], PlanFor(env, log, disk, targets[i])))
  }

  function Excluding(targets: seq<string>, exclude: set<string>): (r: seq<string>)
    ensures forall t :: t in r <==> t in targets && t !in exclude
  {
    if targets == [] then []
    else
      var r := Excluding(targets[..|targets| - 1], exclude);
      var t := targets[|targets| - 1];
      if t in exclude then r else r + [t]
  }

  /** PlanReverseExcluding, from the simple per-target reading of the log. */
  ghost function PlanReverse(env: Env, log: seq<Record>, disk: Disk, exclude: set<string>): Plan {
    PlanOver(env, log, disk, Excluding(WriteTargets(log), exclude))
  }

  // ---------- the planner as it runs ----------

  lemma FirstIsUnique(p: string, q: string, s: set<string>)
    requires IsFirst(p, s) && IsFirst(q, s)
    ensures p == q
  {
    if p != q {
      StrLessAsymmetric(p, q);
    }
  }

  lemma FirstSidecarIs(p: string, s: set<string>)
    requires IsFirst(p, s)
    ensures FirstSidecar(s) == p
  {
    FirstIsUnique(p, FirstSidecar(s), s);
  }

  /** The first entry of the sorted glob. */
  method FindFirst(s: set<string>) returns (first: string)
    requires s != {}
    ensures IsFirst(first, s)
  {
    first :| first in s;
    var seen, rest := {first}, s - {first};
    while rest != {}
      invariant seen + rest == s && seen * rest == {} && IsFirst(first, seen)
      decreases rest
    {
      var p :| p in rest;
      rest := rest - {p};
      ghost var before := first;
      StrLessTotal(p, first);
      if StrLess(p, first) {
        forall q | q in seen ensures StrLess(p, q) {
          if q != before {
            StrLessTransitive(p, before, q);
          }
        }
        first := p;
      }
      seen := seen + {p};
    }
  }

  method KeepExisting(disk: Disk, chain: seq<Record>) returns (existing: seq<Record>)
    ensures existing == Existing(disk, chain)
  {
    existing := [];
    for i := 0 to |chain|
      invariant existing + Existing(disk, chain[i..]) == Existing(disk, chain)
    {
      assert chain[i..][1..] == chain[i + 1..];
      if chain[i].target in disk {
        existing := existing + [chain[i]];
      }
    }
  }

  method PlanReverseTarget(env: Env, disk: Disk, t: string, chain: seq<Record>, restored: bool, lastHash: string)
    returns (a: Action)
    ensures a == PlanTarget(env, disk, t, chain, restored, lastHash)
  {
    var existing := KeepExisting(disk, chain);
    if |existing| > 0 {
      a := Restore(existing[0].target, existing[0].hash);
    } else if |chain| > 0 || restored {
      a := Skip;
    } else {
      var baks := SidecarsOf(disk, t);
      if baks != {} {
        var first := FindFirst(baks);
        FirstSidecarIs(first, baks);
        a := Restore(first, "");
      } else if t in disk {
        a := Delete;
      } else {
        a := Skip;
      }
    }
    if (a.Restore? || a.Delete?) && Drifted(env, disk, t, lastHash) {
      a := Keep;
    }
  }

  lemma IndexAnswers(ix: Index, env: Env, log: seq<Record>, disk: Disk, t: string)
    requires Indexes(ix, log)
    ensures PlanFor(env, log, disk, t)
         == PlanTarget(env, disk, t, Lookup(ix.attested, t, []), t in ix.restored, Lookup(ix.lastWrite, t, ""))
  {
  }

  lemma PlanOverStep(env: Env, log: seq<Record>, disk: Disk, targets: seq<string>, t: string)
    ensures PlanOver(env, log, disk, targets + [t])
         == PlanOver(env, log, disk, targets) + [(t, PlanFor(env, log, disk, t))]
  {
  }

  /** One pass to index the log, then one decision per target. */
  method PlanReverseExcluding(env: Env, log: seq<Record>, disk: Disk, exclude: set<string>) returns (plan: Plan)
    ensures plan == PlanReverse(env, log, disk, exclude)
  {
    hide PlanOver, PlanFor, PlanTarget;
    var ix := BuildIndex(log);
    plan := [];
    assert PlanOver(env, log, disk, []) == [];
    for i := 0 to |ix.targets|
      invariant plan == PlanOver(env, log, disk, Excluding(ix.targets[..i], exclude))
    {
      var t := ix.targets[i];
      assert ix.targets[..i + 1][..i] == ix.targets[..i];
      if t in exclude {
        continue;
      }
      var a := PlanReverseTarget(env, disk, t, Lookup(ix.attested, t, []), t in ix.restored, Lookup(ix.lastWrite, t, ""));
      IndexAnswers(ix, env, log, disk, t);
      PlanOverStep(env, log, disk, Excluding(ix.targets[..i], exclude), t);
      plan := plan + [(t, a)];
    }
    assert ix.targets[..|ix.targets|] == ix.targets;
  }
}
